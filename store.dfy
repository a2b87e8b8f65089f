/** The four operations of the user store, each taking the backing file's
    decoded content and returning what it writes, or the error it aborts with.
    Each operation is given first as a specification function, then (where
    the store scans the records with a loop) as a method with that loop,
    proved to compute the function. No operation writes the file back: the
    result holds only what goes to the output stream. */
module Store {
  import opened Model

  /** The message written when an added record's id is already taken. */
  function AlreadyExists(id: string): string {
    "Item with id " + id + " already exists"
  }

  /** The message written when removing from an empty file. */
  function NotFound(id: string): string {
    "Item with id " + id + " not found"
  }

  /** What adding the record `item` to `content` writes. Empty content is a
      decode error: the store decodes the file unconditionally. */
  function AddOutcome(content: FileContent, item: ItemText): (r: Result)
    ensures r.Ok? <==> content.Records? && item.Parsed?
    ensures content.Unreadable? ==> r == Err(ReadFailed)
    ensures !content.Unreadable? && !r.Ok? ==> r == Err(DecodeFailed)
    ensures (r.Ok? && r.out.Message?) <==>
              content.Records? && item.Parsed? && HasId(content.users, item.user.id)
    ensures r.Ok? && r.out.Message? ==> r.out.text == AlreadyExists(item.user.id)
    ensures r.Ok? && !r.out.Message? ==>
              && r.out.List?
              && |r.out.users| == |content.users| + 1
              && r.out.users[..|content.users|] == content.users
              && r.out.users[|content.users|] == item.user
  {
    match content
    case Unreadable => Err(ReadFailed)
    case Empty => Err(DecodeFailed)
    case Malformed => Err(DecodeFailed)
    case Records(s) =>
      match item
      case MalformedItem => Err(DecodeFailed)
      case Parsed(u) =>
        if HasId(s, u.id) then Ok(Message(AlreadyExists(u.id))) else Ok(List(s + [u]))
  }

  /** What listing `content` writes: nothing for an empty file, otherwise
      the decoded records, same elements in the same order. */
  function ListItems(content: FileContent): (r: Result)
    ensures r == Ok(Nothing) <==> content.Empty?
    ensures (r.Ok? && r.out.List?) <==> content.Records?
    ensures r.Ok? && r.out.List? ==> r.out.users == content.users
    ensures r.Err? <==> content.Unreadable? || content.Malformed?
    ensures r.Err? ==> r.error == (if content.Unreadable? then ReadFailed else DecodeFailed)
  {
    match content
    case Unreadable => Err(ReadFailed)
    case Empty => Ok(Nothing)
    case Malformed => Err(DecodeFailed)
    case Records(s) => Ok(List(s))
  }

  /** What looking up `id` in `content` writes: the first record with that
      id, or nothing. */
  function FindOutcome(content: FileContent, id: string): (r: Result)
    ensures r.Err? <==> content.Unreadable? || content.Malformed?
    ensures r.Err? ==> r.error == (if content.Unreadable? then ReadFailed else DecodeFailed)
    ensures content.Empty? ==> r == Ok(Nothing)
    ensures r.Ok? ==> r.out.Nothing? || (r.out.Single? && r.out.user.id == id)
  {
    match content
    case Unreadable => Err(ReadFailed)
    case Empty => Ok(Nothing)
    case Malformed => Err(DecodeFailed)
    case Records(s) =>
      match Lookup(s, id)
      case Some(u) => Ok(Single(u))
      case None => Ok(Nothing)
  }

  /** What removing `id` from `content` writes: the "not found" message for
      an empty file, otherwise the records without the first one of that id
      (all of them, unchanged, when none has it). */
  function RemoveOutcome(content: FileContent, id: string): (r: Result)
    ensures r.Err? <==> content.Unreadable? || content.Malformed?
    ensures r.Err? ==> r.error == (if content.Unreadable? then ReadFailed else DecodeFailed)
    ensures (r.Ok? && r.out.Message?) <==> content.Empty?
    ensures r.Ok? && r.out.Message? ==> r.out.text == NotFound(id)
    ensures r.Ok? && !r.out.Message? ==> r.out.List? && |r.out.users| <= |content.users|
  {
    match content
    case Unreadable => Err(ReadFailed)
    case Empty => Ok(Message(NotFound(id)))
    case Malformed => Err(DecodeFailed)
    case Records(s) =>
      RemoveLength(s, id);
      Ok(List(RemoveFirst(s, id)))
  }

  /** Removal never lengthens the records. */
  lemma {:induction false} RemoveLength(s: seq<User>, id: string)
    ensures |RemoveFirst(s, id)| <= |s|
  {
    if s != [] && s[0].id != id {
      RemoveLength(s[1..], id);
    }
  }

  /** The store's `addItem`: decode the file, decode the item, scan for a
      record with the same id, and append when there is none. */
  method AddItem(content: FileContent, item: ItemText) returns (r: Result)
    ensures r == AddOutcome(content, item)
  {
    match content {
      case Unreadable => return Err(ReadFailed);
      case Empty => return Err(DecodeFailed);
      case Malformed => return Err(DecodeFailed);
      case Records(itemList) =>
        match item {
          case MalformedItem => return Err(DecodeFailed);
          case Parsed(user) =>
            for k := 0 to |itemList|
              invariant forall j :: 0 <= j < k ==> itemList[j].id != user.id
            {
              if itemList[k].id == user.id {
                return Ok(Message(AlreadyExists(user.id)));
              }
            }
            return Ok(List(itemList + [user]));
        }
    }
  }

  /** The store's `findUserById`: scan from the front and return at the
      first record with the id. */
  method FindUserById(content: FileContent, id: string) returns (r: Result)
    ensures r == FindOutcome(content, id)
  {
    match content {
      case Unreadable => return Err(ReadFailed);
      case Empty => return Ok(Nothing);
      case Malformed => return Err(DecodeFailed);
      case Records(item) =>
        for k := 0 to |item|
          invariant forall j :: 0 <= j < k ==> item[j].id != id
        {
          if item[k].id == id {
            LookupFindsFirst(item, id, k);
            return Ok(Single(item[k]));
          }
        }
        LookupAbsent(item, id);
        return Ok(Nothing);
    }
  }

  /** The store's `removeUser`: scan from the front, splice out the first
      record with the id and stop; write the records either way. */
  method RemoveUser(content: FileContent, id: string) returns (r: Result)
    ensures r == RemoveOutcome(content, id)
  {
    match content {
      case Unreadable => return Err(ReadFailed);
      case Empty => return Ok(Message(NotFound(id)));
      case Malformed => return Err(DecodeFailed);
      case Records(users) =>
        var item := users;
        for i := 0 to |users|
          invariant item == users
          invariant forall j :: 0 <= j < i ==> users[j].id != id
        {
          if item[i].id == id {
            RemoveFirstSplices(users, id, i);
            item := item[..i] + item[i + 1..];
            break;
          }
        }
        if item == users {
          RemoveFirstAbsent(users, id);
        }
        return Ok(List(item));
    }
  }

  /** Finding writes nothing exactly when no record has the id, and
      otherwise the record at the first position that has it, whatever
      duplicates follow. */
  lemma FindReturnsFirstMatch(s: seq<User>, id: string)
    ensures FindOutcome(Records(s), id) == Ok(Nothing) <==> !HasId(s, id)
    ensures forall k :: IsFirstMatch(s, id, k) ==> FindOutcome(Records(s), id) == Ok(Single(s[k]))
  {
    LookupAbsent(s, id);
    forall k | IsFirstMatch(s, id, k) ensures FindOutcome(Records(s), id) == Ok(Single(s[k])) {
      LookupFindsFirst(s, id, k);
    }
  }

  /** Removing an id some record has writes the records with exactly the
      first such record spliced out; removing an id no record has writes the
      records unchanged, and no message. */
  lemma RemoveSplicesFirstMatch(s: seq<User>, id: string)
    ensures forall k :: IsFirstMatch(s, id, k) ==>
              RemoveOutcome(Records(s), id) == Ok(List(s[..k] + s[k + 1..]))
    ensures !HasId(s, id) ==> RemoveOutcome(Records(s), id) == Ok(List(s))
  {
    forall k | IsFirstMatch(s, id, k)
      ensures RemoveOutcome(Records(s), id) == Ok(List(s[..k] + s[k + 1..]))
    {
      RemoveFirstSplices(s, id, k);
    }
    if !HasId(s, id) {
      RemoveFirstAbsent(s, id);
    }
  }

  /** Removing the id of a record just added takes the records back to what
      they were before the add. */
  lemma RemoveUndoesAdd(s: seq<User>, u: User)
    requires !HasId(s, u.id)
    ensures AddOutcome(Records(s), Parsed(u)) == Ok(List(s + [u]))
    ensures RemoveOutcome(Records(s + [u]), u.id) == Ok(List(s))
  {
    assert IsFirstMatch(s + [u], u.id, |s|);
    RemoveFirstSplices(s + [u], u.id, |s|);
    assert (s + [u])[..|s|] == s;
  }

  /** After a successful add, finding the new id yields the new record and
      finding any other id yields what it yielded before. */
  lemma FindAfterAdd(s: seq<User>, u: User, id: string)
    requires !HasId(s, u.id)
    ensures AddOutcome(Records(s), Parsed(u)) == Ok(List(s + [u]))
    ensures FindOutcome(Records(s + [u]), id) ==
              if id == u.id then Ok(Single(u)) else FindOutcome(Records(s), id)
  {
    LookupAppend(s, u, id);
    if id == u.id {
      LookupAbsent(s, id);
    }
  }

  /** Add is the only operation that checks ids, and it keeps them unique. */
  lemma AddKeepsUnique(s: seq<User>, item: ItemText)
    requires Unique(s)
    ensures forall t :: AddOutcome(Records(s), item) == Ok(List(t)) ==> Unique(t)
  {
  }

  /** What a caller gets by adding the records of `us` one at a time, each
      time storing the listed output as the next file content (the store
      itself never writes the file back); None once an add does not list. */
  function AddEach(s: seq<User>, us: seq<User>): Option<seq<User>>
    decreases |us|
  {
    if us == [] then Some(s)
    else
      match AddOutcome(Records(s), Parsed(us[0]))
      case Ok(List(t)) => AddEach(t, us[1..])
      case _ => None
  }

  /** Adding records with pairwise distinct ids that no old record has, one
      after another, then listing, yields exactly the old records followed by
      the new ones in insertion order. The old records may share ids among
      themselves: add checks only the new id. */
  lemma {:induction false} AddDistinctThenList(s: seq<User>, us: seq<User>)
    requires Unique(us)
    requires forall i, j :: 0 <= i < |s| && 0 <= j < |us| ==> s[i].id != us[j].id
    ensures AddEach(s, us) == Some(s + us)
    ensures ListItems(Records(s + us)) == Ok(List(s + us))
    decreases |us|
  {
    if us != [] {
      assert !HasId(s, us[0].id);
      var t := s + [us[0]];
      forall i, j | 0 <= i < |t| && 0 <= j < |us[1..]| ensures t[i].id != us[1..][j].id {
        assert us[1..][j] == us[j + 1];
      }
      assert AddOutcome(Records(s), Parsed(us[0])) == Ok(List(t));
      assert t + us[1..] == s + us;
      AddDistinctThenList(t, us[1..]);
      assert AddEach(s, us) == AddEach(t, us[1..]);
    } else {
      assert s + us == s;
    }
  }

  /** One run of the store, step by step as written: adding to an empty file
      fails to decode, adding to "[]" lists the record, a second add of the
      same id writes the collision message, and removing on non-empty content
      never writes "not found". */
  lemma ScenarioAsWritten()
    ensures var u1, u2 := User("1", "a@b.com", 34), User("1", "c@d.com", 50);
      && AddOutcome(Empty, Parsed(u1)) == Err(DecodeFailed)
      && AddOutcome(Records([]), Parsed(u1)) == Ok(List([u1]))
      && AddOutcome(Records([u1]), Parsed(u2)) == Ok(Message("Item with id 1 already exists"))
      && RemoveOutcome(Records([u1]), "1") == Ok(List([]))
      && RemoveOutcome(Records([]), "1") == Ok(List([]))
      && RemoveOutcome(Empty, "1") == Ok(Message("Item with id 1 not found"))
  {
  }
}
