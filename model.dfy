/** The records of the user store, what the backing file and the `-item`
    text decode to, what an operation writes, and the sequence facts that the
    store's operations are specified with. JSON itself is not modelled:
    decoding yields one of the datatypes below, encoding is the identity into
    `Output`. */
module Model {

  datatype Option<T> = None | Some(value: T)

  /** One user record: the JSON fields `id`, `email` and `age`. */
  datatype User = User(id: string, email: string, age: int)

  /** What reading the backing file and decoding it as a list of users yields. */
  datatype FileContent =
    | Unreadable                // reading the file failed
    | Empty                     // the file has zero bytes
    | Malformed                 // non-empty, but not a JSON array of users
    | Records(users: seq<User>) // decoded; ids need not be unique

  /** What decoding the `-item` text as a single user yields. */
  datatype ItemText = MalformedItem | Parsed(user: User)

  /** What an operation writes to its output stream. */
  datatype Output =
    | Nothing                   // nothing, or the empty string
    | Message(text: string)     // a human-readable status line
    | List(users: seq<User>)    // an encoded array of users
    | Single(user: User)        // one encoded user

  /** The error kinds an invocation can end with. */
  datatype Error =
    | FileNameFlagMissing
    | OperationFlagMissing
    | ItemFlagMissing
    | IdFlagMissing
    | OperationNotAllowed(operation: string)
    | OpenFailed                // the backing file could not be opened or created
    | ReadFailed                // the backing file could not be read
    | DecodeFailed              // the file content or the item text is not valid JSON for its type

  datatype Result = Ok(out: Output) | Err(error: Error)

  /** Some record of `s` carries the id `id`. */
  predicate HasId(s: seq<User>, id: string) {
    exists k :: 0 <= k < |s| && s[k].id == id
  }

  /** `k` is the position of the first record of `s` whose id is `id`. */
  predicate IsFirstMatch(s: seq<User>, id: string, k: int) {
    0 <= k < |s| && s[k].id == id && forall j :: 0 <= j < k ==> s[j].id != id
  }

  /** No two records of `s` share an id. */
  predicate Unique(s: seq<User>) {
    forall i, j :: 0 <= i < j < |s| ==> s[i].id != s[j].id
  }

  /** The first record of `s` with id `id`, read from the front. */
  function Lookup(s: seq<User>, id: string): (r: Option<User>)
    ensures r.Some? ==> r.value in s && r.value.id == id
  {
    if s == [] then None
    else if s[0].id == id then Some(s[0])
    else Lookup(s[1..], id)
  }

  /** `s` without its first record of id `id`; `s` itself when there is none. */
  function RemoveFirst(s: seq<User>, id: string): seq<User> {
    if s == [] then []
    else if s[0].id == id then s[1..]
    else [s[0]] + RemoveFirst(s[1..], id)
  }

  /** The first match of `s` is found one step later in `s[1..]`. */
  lemma FirstMatchOfTail(s: seq<User>, id: string, k: int)
    requires IsFirstMatch(s, id, k) && k > 0
    ensures s[0].id != id && IsFirstMatch(s[1..], id, k - 1)
  {
  }

  /** Without a match in `s[0]`, `s` has the id exactly when its tail does. */
  lemma HasIdOfTail(s: seq<User>, id: string)
    requires s != [] && s[0].id != id
    ensures HasId(s, id) <==> HasId(s[1..], id)
  {
  }

  /** Lookup yields the record at the first matching position. */
  lemma {:induction false} LookupFindsFirst(s: seq<User>, id: string, k: int)
    requires IsFirstMatch(s, id, k)
    ensures Lookup(s, id) == Some(s[k])
  {
    if k > 0 {
      FirstMatchOfTail(s, id, k);
      LookupFindsFirst(s[1..], id, k - 1);
    }
  }

  /** Lookup yields nothing exactly when no record carries the id. */
  lemma {:induction false} LookupAbsent(s: seq<User>, id: string)
    ensures Lookup(s, id) == None <==> !HasId(s, id)
  {
    if s != [] {
      if s[0].id == id {
        assert HasId(s, id);
      } else {
        HasIdOfTail(s, id);
        LookupAbsent(s[1..], id);
      }
    }
  }

  /** Removing the first match is splicing out its position. */
  lemma {:induction false} RemoveFirstSplices(s: seq<User>, id: string, k: int)
    requires IsFirstMatch(s, id, k)
    ensures RemoveFirst(s, id) == s[..k] + s[k + 1..]
  {
    if k > 0 {
      FirstMatchOfTail(s, id, k);
      RemoveFirstSplices(s[1..], id, k - 1);
      assert s[1..][..k - 1] == s[1..k];
      assert s[1..][k..] == s[k + 1..];
      assert [s[0]] + s[1..k] == s[..k];
    }
  }

  /** Without a match, removal changes nothing. */
  lemma {:induction false} RemoveFirstAbsent(s: seq<User>, id: string)
    requires !HasId(s, id)
    ensures RemoveFirst(s, id) == s
  {
    if s != [] {
      assert s[0].id != id;
      HasIdOfTail(s, id);
      RemoveFirstAbsent(s[1..], id);
      assert [s[0]] + s[1..] == s;
    }
  }

  /** Removal takes out exactly the record at the first match: one record
      fewer, the records before it in place, every later record (later
      duplicates of the id included) shifted down by one, and the multiset
      of records short by just that one. */
  lemma RemoveFirstShape(s: seq<User>, id: string, k: int)
    requires IsFirstMatch(s, id, k)
    ensures |RemoveFirst(s, id)| == |s| - 1
    ensures forall j :: 0 <= j < k ==> RemoveFirst(s, id)[j] == s[j]
    ensures forall j :: k < j < |s| ==> RemoveFirst(s, id)[j - 1] == s[j]
    ensures multiset(RemoveFirst(s, id)) + multiset{s[k]} == multiset(s)
  {
    RemoveFirstSplices(s, id, k);
    assert s == s[..k] + [s[k]] + s[k + 1..];
  }

  /** On records with unique ids, removal leaves unique ids and no record of
      the removed id. */
  lemma RemoveFirstOnUnique(s: seq<User>, id: string)
    requires Unique(s)
    ensures Unique(RemoveFirst(s, id))
    ensures !HasId(RemoveFirst(s, id), id)
  {
    if HasId(s, id) {
      var k :| 0 <= k < |s| && s[k].id == id;
      assert IsFirstMatch(s, id, k);
      RemoveFirstShape(s, id, k);
      var r := RemoveFirst(s, id);
      forall i, j | 0 <= i < j < |r| ensures r[i].id != r[j].id {
        var i' := if i < k then i else i + 1;
        var j' := if j < k then j else j + 1;
        assert r[i] == s[i'] && r[j] == s[j'];
      }
      forall j | 0 <= j < |r| ensures r[j].id != id {
        var j' := if j < k then j else j + 1;
        assert r[j] == s[j'];
      }
    } else {
      RemoveFirstAbsent(s, id);
    }
  }

  /** Appending a record only matters to a lookup that finds nothing before it. */
  lemma {:induction false} LookupAppend(s: seq<User>, u: User, id: string)
    ensures Lookup(s + [u], id) ==
              if Lookup(s, id).Some? then Lookup(s, id)
              else if u.id == id then Some(u) else None
  {
    if s == [] {
      assert [] + [u] == [u];
    } else {
      assert (s + [u])[1..] == s[1..] + [u];
      LookupAppend(s[1..], u, id);
    }
  }
}
