# User store, modelled in Dafny

A command-line tool keeps a list of user records (`id`, `email`, `age`) as a
JSON array in one file and runs one of four operations per invocation:
`add` a record (refused when its id is taken), `list` the records, `findById`
the first record with an id, and `remove` the first record with an id. Each
operation reads the whole file, decodes it, and writes its result (the
records, one record, or a status message) to an output stream. Nothing is
ever written back to the file. The entry point `Perform` checks the
arguments in a fixed order, opens the file, and dispatches.

The model has three modules:

- `Model` (`model.dfy`): the record, what the file content and the `-item`
  text decode to (`FileContent`, `ItemText`), what an operation writes
  (`Output`), the error kinds, and recursive reference definitions of
  "first record with this id" (`Lookup`) and "without the first record with
  this id" (`RemoveFirst`), with lemmas that tie them to positions in the
  sequence.
- `Store` (`store.dfy`): each operation as a specification function
  (`AddOutcome`, `ListItems`, `FindOutcome`, `RemoveOutcome`). `addItem`,
  `findUserById` and `removeUser` scan with loops in the source, so each is
  also a method with that loop (early return, or splice and `break`), proved
  to compute its function. Lemmas relate the operations to each other.
- `Cli` (`cli.dfy`): the arguments as a map from key to string (an absent
  key reads as `""`), the open step as an input (`FileState`), `Perform`,
  and the texts of the store's own errors.

Decoding and encoding JSON belong to a library; here decoding yields one of
the datatypes above and encoding is the identity into `Output`. The JSON
decoder applied to the `-item` text is a parameter of `Perform`.

## Code versus documentation

The model follows the code where the code and its comments disagree:

- Adding to an empty file fails with a decode error. The comment on
  `addItem` says the user is then added, but the code decodes the file
  content with no empty-content branch (main.go:53-57). `ScenarioAsWritten`
  states this.
- Removing an id that no record has, from a non-empty file, writes the
  unchanged list and no "not found" message. Only an empty file gets the
  message (main.go:163-168 and main.go:175-189). The comment on
  `removeUser` promises the message in both cases.

## Model

| member | source | states |
|---|---|---|
| `Model.Lookup` | main.go:134-146 | a record the scan returns is one of the records and carries the requested id |
| `Model.LookupFindsFirst` | main.go:134-145 | when position k holds the first record with the id, the scan returns exactly that record, whatever duplicates follow |
| `Model.LookupAbsent` | main.go:134-151 | the scan returns nothing exactly when no record carries the id (both directions) |
| `Model.LookupAppend` | main.go:134-146 | after appending a record, a lookup returns what it returned before if that was a record, otherwise the new record if its id matches, otherwise nothing |
| `Model.RemoveFirstSplices` | main.go:175-180 | removal with a first match at position k is the splice of position k out of the sequence |
| `Model.RemoveFirstAbsent` | main.go:175-180 | removal with no matching record leaves the sequence unchanged |
| `Model.RemoveFirstShape` | main.go:175-180 | exactly the first match goes: length drops by one, earlier records stay in place, every later record (later duplicates of the id included) moves down one, and the multiset of records loses just that record |
| `Model.RemoveFirstOnUnique` | main.go:175-180 | on records with unique ids, removal keeps ids unique and leaves no record with the removed id |
| `Store.AddOutcome` | main.go:48-80 | add succeeds exactly when the file content and the item both decode (empty content is a decode error); a read failure reports as such; it writes the collision message "Item with id ID already exists" exactly when some record has the new id; otherwise it writes the old records as an unchanged prefix followed by the new record, one longer |
| `Store.ListItems` | main.go:84-110 | listing writes nothing exactly for an empty file, writes a list exactly when the content decodes, and then the decoded records in the same order; every other case is the read or decode error |
| `Store.FindOutcome` | main.go:117-152 | find fails exactly on a read or decode error (the read error for unreadable content, the decode error for malformed content), writes nothing for an empty file, and otherwise writes nothing or one record whose id is the requested id |
| `Store.RemoveOutcome` | main.go:158-190 | remove fails exactly on a read or decode error (the read error for unreadable content, the decode error for malformed content), writes "Item with id ID not found" exactly for an empty file, and otherwise writes a list no longer than the records |
| `Store.AddItem` | main.go:48-80 | the loop that scans for the new id and returns early, then appends, computes `AddOutcome` |
| `Store.FindUserById` | main.go:117-152 | the loop that returns at the first record with the id computes `FindOutcome` |
| `Store.RemoveUser` | main.go:158-190 | the loop that splices out the first record with the id and breaks computes `RemoveOutcome` |
| `Store.FindReturnsFirstMatch` | main.go:134-151 | on decoded records, find writes nothing exactly when no record has the id, and otherwise the record at the first position that has it |
| `Store.RemoveSplicesFirstMatch` | main.go:175-189 | on decoded records, remove writes the records with the first match spliced out, and the records unchanged (no message) when nothing matches |
| `Store.RemoveUndoesAdd` | main.go:69-75 | adding a record with a new id and then removing that id gives back the records as they were |
| `Store.FindAfterAdd` | main.go:69-75 | after adding a record with a new id, finding that id yields the new record, and finding any other id yields what it yielded before |
| `Store.AddKeepsUnique` | main.go:63-69 | on records with unique ids, every list that add writes has unique ids |
| `Store.AddDistinctThenList` | main.go:63-75 | adding records with pairwise distinct ids, none of them already among the old records (which may hold duplicates among themselves), one by one, each time storing the written list as the next content, yields the old records followed by the new ones in insertion order, and listing that content writes exactly them |
| `Store.ScenarioAsWritten` | main.go:48-190 | a concrete run: add to an empty file is a decode error; add to "[]" writes the one record; a second add of id "1" writes "Item with id 1 already exists"; remove of "1" writes the empty list, again on "[]" the empty list, and on an empty file "Item with id 1 not found" |
| `Cli.Perform` | main.go:195-249 | each missing-argument error is returned exactly when that argument is the first one missing (file name, then operation, then `item` for add or `id` for findById and remove; list needs neither); an unopenable file is reported exactly when both names are present, before the operation is looked at; "Operation OP not allowed!" exactly for an unknown operation on an opened file, naming it; each accepted operation yields exactly its store operation's result |
| `Cli.ErrorTextIdentifies` | main.go:12-17 | the four missing-flag texts and "Operation OP not allowed!" (main.go:246) are pairwise different, and the latter determines OP |

## Left out

- Argument parsing with the `flag` package and `main`'s `panic` on error
  (main.go:30-43, 251-256): the arguments are given directly as a map.
- Opening, creating and closing the file (main.go:206-210): the open step is
  the input `FileState`, its failure the single error `OpenFailed`. That the
  file gets created even when the operation is then refused is a filesystem
  side effect the model does not represent.
- `io.ReadAll` (main.go:49, 85, 118, 159): its failure is the content
  `Unreadable`, reported as `ReadFailed`; the OS error text is not modelled.
- JSON syntax and byte-exact output: decoding is a case of `FileContent` or
  `ItemText`, encoding is the identity. So the model does not distinguish a
  file holding `null` (listed back as `null`) from one holding `[]`,
  decoding details such as unknown fields or an `age` beyond 64 bits (both
  fall under `Malformed` or a decoded value), or the texts of decoder errors.
  Encoding this record type cannot fail, so those error paths are omitted.
- Errors from writing to the output stream: the output is a value.
- `RemoveUser` splices a Dafny sequence rather than shifting the Go slice's
  backing array in place; nothing else refers to that array.
