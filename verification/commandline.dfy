/** The program's entry point: the checks on the signature table and the arguments,
    in the order they are made, and the call of the signature check. */
module CommandLine {
  import opened Text
  import opened HexDump
  import opened SignatureCheck

  /** What `Main` goes on to do with its arguments. */
  datatype Action =
    | TableMissing
    | MissingArgument
    | ShowHelp
    | TargetMissing(path: string)
    | Inspect(path: string, extOnly: bool)

  /** The choices `Main` makes, in its order: the table must exist, there must be an
      argument, a first argument containing "-h" asks for help, the target must exist,
      and a second argument equal to "-ext" selects extension-only output. `fileExists`
      answers `File.Exists`. */
  function Dispatch(tablePresent: bool, args: seq<string>, fileExists: string -> bool): (a: Action)
    ensures a == TableMissing <==> !tablePresent
    ensures a == MissingArgument <==> tablePresent && args == []
    ensures a.Inspect? ==> |args| >= 1 && a.path == args[0] && fileExists(a.path) && !Contains(a.path, "-h")
    ensures a.Inspect? ==> (a.extOnly <==> |args| > 1 && args[1] == "-ext")
  {
    if !tablePresent then TableMissing
    else if |args| < 1 then MissingArgument
    else if Contains(args[0], "-h") then ShowHelp
    else if !fileExists(args[0]) then TargetMissing(args[0])
    else Inspect(args[0], |args| > 1 && args[1] == "-ext")
  }

  /** Help is shown for any first argument that contains "-h" anywhere, such as the
      path "my-hosts.bin", whether or not that file exists. */
  lemma HelpForAnyDashH(tablePresent: bool, args: seq<string>, fileExists: string -> bool)
    requires tablePresent && |args| >= 1
    ensures Dispatch(tablePresent, args, fileExists) == ShowHelp <==> Contains(args[0], "-h")
  {
  }

  /** Only a second argument equal to "-ext" changes anything: any other second
      argument, and every argument after the second, is ignored. */
  lemma OnlyExtSwitchMatters(tablePresent: bool, path: string, second: string, rest: seq<string>,
                             fileExists: string -> bool)
    ensures Dispatch(tablePresent, [path, second] + rest, fileExists) ==
      if second == "-ext" then Dispatch(tablePresent, [path, "-ext"], fileExists)
      else Dispatch(tablePresent, [path], fileExists)
  {
  }

  /** The file is inspected exactly when the table exists, the first argument does not
      contain "-h" and names an existing file. */
  lemma InspectIff(tablePresent: bool, args: seq<string>, fileExists: string -> bool)
    ensures Dispatch(tablePresent, args, fileExists).Inspect? <==>
      tablePresent && |args| >= 1 && !Contains(args[0], "-h") && fileExists(args[0])
  {
  }

  /** What the program writes to the console, or how it ends. */
  datatype Report =
    | WriteLine(text: string)    // one line written with Console.WriteLine
    | Help                       // the usage text
    | Checked(outcome: Outcome)  // what CheckFileSignature did

  const TableMissingText: string :=
    "Error: File ext_list.txt is not present with file type signature. File must be located with the FileSigChecker executable!"

  const MissingArgumentText: string := "At least one param is required"

  function TargetMissingText(path: string): string
  {
    "Error: File '" + path + "' does not exist!"
  }

  /** `File.Exists`: a path that names a file, readable or not. */
  predicate Exists(file: FileState)
  {
    !file.Missing?
  }

  /** The whole run: `files` maps each path to the file found there, `extensionOf` gives
      `FileInfo.Extension` of a path, and `table` holds the lines of the signature
      table. */
  function Expected(tablePresent: bool, table: seq<string>, args: seq<string>, files: string -> FileState,
                    extensionOf: string -> string, nl: string, exceptionText: HexError -> string): Report
    requires IsNewLine(nl)
  {
    match Dispatch(tablePresent, args, p => Exists(files(p)))
    case TableMissing => WriteLine(TableMissingText)
    case MissingArgument => WriteLine(MissingArgumentText)
    case ShowHelp => Help
    case TargetMissing(p) => WriteLine(TargetMissingText(p))
    case Inspect(p, extOnly) =>
      Checked(Decide(table, Sampled(files(p), nl, exceptionText), p, Remove(extensionOf(p), '.'), extOnly, false))
  }

  /** A missing target is reported by name and never inspected: the signature check
      only ever sees a file that exists. */
  lemma CheckedOnlyExistingFiles(tablePresent: bool, table: seq<string>, args: seq<string>,
                                 files: string -> FileState, extensionOf: string -> string,
                                 nl: string, exceptionText: HexError -> string)
    requires IsNewLine(nl)
    ensures Expected(tablePresent, table, args, files, extensionOf, nl, exceptionText).Checked? ==>
      |args| >= 1 && Exists(files(args[0]))
    ensures tablePresent && |args| >= 1 && !Contains(args[0], "-h") && !Exists(files(args[0])) ==>
      Expected(tablePresent, table, args, files, extensionOf, nl, exceptionText) ==
        WriteLine(TargetMissingText(args[0]))
  {
  }

  /** `Main(args)`: checks the table and the arguments, then runs the signature check
      on a fresh checker, whose `isIterated` flag starts cleared. */
  method Run(tablePresent: bool, table: seq<string>, args: seq<string>, files: string -> FileState,
             extensionOf: string -> string, nl: string, exceptionText: HexError -> string)
    returns (report: Report)
    requires IsNewLine(nl)
    ensures report == Expected(tablePresent, table, args, files, extensionOf, nl, exceptionText)
  {
    if !tablePresent {
      return WriteLine(TableMissingText);
    }
    if |args| < 1 {
      return WriteLine(MissingArgumentText);
    }
    var extOnly := "";
    var fileParam := args[0];
    if |args| > 1 {
      extOnly := args[1];
    }
    if Contains(fileParam, "-h") {
      return Help;
    }
    if !Exists(files(fileParam)) {
      return WriteLine(TargetMissingText(fileParam));
    }
    var checker := new FileTypeChecker();
    var outcome;
    if extOnly == "-ext" {
      outcome := checker.CheckFileSignature(table, files(fileParam), fileParam, extensionOf(fileParam), true, nl, exceptionText);
    } else {
      outcome := checker.CheckFileSignature(table, files(fileParam), fileParam, extensionOf(fileParam), false, nl, exceptionText);
    }
    return Checked(outcome);
  }
}
