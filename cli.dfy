/** The store's entry point: check the arguments in a fixed order, open the
    backing file, and run the one operation the arguments name. Opening the
    file is an input here (`FileState`), and so is the JSON decoder applied
    to the `-item` text. */
module Cli {
  import opened Model
  import opened Store

  /** The command-line arguments by key ("fileName", "operation", "id",
      "item"); a key that is absent reads as the empty string. */
  type Arguments = map<string, string>

  function Arg(args: Arguments, key: string): string {
    if key in args then args[key] else ""
  }

  /** Whether the backing file could be opened (or created), and if so what
      its content decodes to. */
  datatype FileState = CannotOpen | Opened(content: FileContent)

  /** The operation names the store accepts. */
  const Operations: set<string> := {"add", "list", "findById", "remove"}

  /** The checks that come before the operation is looked at: a file name,
      an operation name, and a file that opened. */
  predicate Ready(args: Arguments, file: FileState) {
    Arg(args, "fileName") != "" && Arg(args, "operation") != "" && file.Opened?
  }

  /** One invocation of the store. Each missing-argument error is returned
      exactly when its argument is the first one missing in the order
      file name, operation, then the argument that operation needs; an
      unopenable file wins over an unknown operation; and an accepted
      operation yields exactly what that operation yields. */
  function Perform(args: Arguments, file: FileState, decode: string -> ItemText): (r: Result)
    ensures r == Err(FileNameFlagMissing) <==> Arg(args, "fileName") == ""
    ensures r == Err(OperationFlagMissing) <==>
              Arg(args, "fileName") != "" && Arg(args, "operation") == ""
    ensures r == Err(OpenFailed) <==>
              Arg(args, "fileName") != "" && Arg(args, "operation") != "" && file.CannotOpen?
    ensures r == Err(ItemFlagMissing) <==>
              Ready(args, file) && Arg(args, "operation") == "add" && Arg(args, "item") == ""
    ensures r == Err(IdFlagMissing) <==>
              && Ready(args, file)
              && (Arg(args, "operation") == "findById" || Arg(args, "operation") == "remove")
              && Arg(args, "id") == ""
    ensures (r.Err? && r.error.OperationNotAllowed?) <==>
              Ready(args, file) && Arg(args, "operation") !in Operations
    ensures r.Err? && r.error.OperationNotAllowed? ==> r.error.operation == Arg(args, "operation")
    ensures Ready(args, file) && Arg(args, "operation") == "list" ==>
              r == ListItems(file.content)
    ensures Ready(args, file) && Arg(args, "operation") == "add" && Arg(args, "item") != "" ==>
              r == AddOutcome(file.content, decode(Arg(args, "item")))
    ensures Ready(args, file) && Arg(args, "operation") == "findById" && Arg(args, "id") != "" ==>
              r == FindOutcome(file.content, Arg(args, "id"))
    ensures Ready(args, file) && Arg(args, "operation") == "remove" && Arg(args, "id") != "" ==>
              r == RemoveOutcome(file.content, Arg(args, "id"))
  {
    var fileName := Arg(args, "fileName");
    if fileName == "" then Err(FileNameFlagMissing)
    else
      var operation := Arg(args, "operation");
      if operation == "" then Err(OperationFlagMissing)
      else
        match file
        case CannotOpen => Err(OpenFailed)
        case Opened(content) =>
          if operation == "add" then
            var item := Arg(args, "item");
            if item == "" then Err(ItemFlagMissing) else AddOutcome(content, decode(item))
          else if operation == "list" then
            ListItems(content)
          else if operation == "findById" then
            var id := Arg(args, "id");
            if id == "" then Err(IdFlagMissing) else FindOutcome(content, id)
          else if operation == "remove" then
            var id := Arg(args, "id");
            if id == "" then Err(IdFlagMissing) else RemoveOutcome(content, id)
          else
            Err(OperationNotAllowed(operation))
  }

  /** The text of an error the store itself defines; None for the errors
      whose text comes from the operating system or the JSON decoder. */
  function ErrorText(e: Error): Option<string> {
    match e
    case FileNameFlagMissing => Some("-fileName flag has to be specified")
    case OperationFlagMissing => Some("-operation flag has to be specified")
    case ItemFlagMissing => Some("-item flag has to be specified")
    case IdFlagMissing => Some("-id flag has to be specified")
    case OperationNotAllowed(operation) => Some("Operation " + operation + " not allowed!")
    case OpenFailed => None
    case ReadFailed => None
    case DecodeFailed => None
  }

  /** Equal strings with equal prefixes and suffixes have equal middles. */
  lemma Unframe(p: string, a: string, b: string, q: string)
    requires p + a + q == p + b + q
    ensures a == b
  {
    var n := |p|;
    assert |a| == |b|;
    assert (p + a + q)[n..n + |a|] == a;
    assert (p + b + q)[n..n + |b|] == b;
  }

  /** Store-defined error texts start with '-' (a missing flag) or 'O' (an
      unknown operation). */
  lemma ErrorTextStart(e: Error)
    ensures ErrorText(e).Some? ==>
              |ErrorText(e).value| > 0 &&
              ErrorText(e).value[0] == if e.OperationNotAllowed? then 'O' else '-'
  {
  }

  /** The text of a store-defined error tells which error it is: each
      missing flag has its own text, and an unknown operation's text names
      the operation. */
  lemma ErrorTextIdentifies(e1: Error, e2: Error)
    requires ErrorText(e1).Some? && ErrorText(e1) == ErrorText(e2)
    ensures e1 == e2
  {
    ErrorTextStart(e1);
    ErrorTextStart(e2);
    if e1.OperationNotAllowed? && e2.OperationNotAllowed? {
      Unframe("Operation ", e1.operation, e2.operation, " not allowed!");
    }
  }
}
