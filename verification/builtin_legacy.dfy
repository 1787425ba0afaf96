/** `src/builtin.rs`, the single-file generation of the builtins: five
    builtins (no `history`), and `type` classifying its names while parsing
    rather than while executing. */
module LegacyBuiltins {
  import opened Results
  import opened Output
  import Commands
  import Text
  import Decimal
  import TypeBuiltin
  import Builtins

  /** `BUILTIN_COMMANDS` of this generation. */
  const Names: set<string> := {"echo", "type", "pwd", "cd", "exit"}

  /** `Type`: a name classified as a builtin, an executable found on the
      search path, or neither. */
  datatype Type =
    | BuiltinCommand(name: string)
    | Executable(name: string, path: string)
    | UnrecognizedCommand(name: string)

  datatype Builtin =
    | Echo(content: string)
    | TypeList(types: seq<Type>)
    | Pwd
    | Cd(dir: string)
    | Exit(code: int)

  /** `Type::parse`, with `find_in_path` given by `found`. */
  function ParseType(cmd: string, found: map<string, string>): (t: Type)
    ensures t.name == cmd
    ensures t.BuiltinCommand? <==> cmd in Names
    ensures t.Executable? <==> cmd !in Names && cmd in found
    ensures t.Executable? ==> t.path == found[cmd]
  {
    if cmd in Names then BuiltinCommand(cmd)
    else if cmd in found then Executable(cmd, found[cmd])
    else UnrecognizedCommand(cmd)
  }

  /** `Type`'s `Display`. */
  function Display(t: Type): (line: string)
    ensures |line| > |t.name| && line[..|t.name|] == t.name
  {
    match t
    case BuiltinCommand(cmd) => cmd + " is a shell builtin"
    case Executable(name, path) => name + " is " + path
    case UnrecognizedCommand(cmd) => cmd + ": not found"
  }

  /** `BuiltinCommand::parse` of this generation. */
  function Parse(name: string, args: seq<string>, found: map<string, string>)
    : (r: Result<Builtin, Commands.CommandError>)
    requires name in Names
    ensures (r.Failure? && r.error.LessArgs?) <==> name == "type" && args == []
    ensures r.Failure? && r.error.LessArgs? ==> r.error == Commands.LessArgs(name, [], 1)
    ensures (r.Failure? && r.error.MoreArgs?) <==>
      (name == "pwd" && args != []) || ((name == "cd" || name == "exit") && |args| > 1)
    ensures r.Success? && r.value.TypeList? ==>
      |r.value.types| == |args|
      && forall i :: 0 <= i < |args| ==> r.value.types[i] == ParseType(args[i], found)
    ensures args == [] && name == "cd" ==> r == Success(Cd("~"))
    ensures args == [] && name == "exit" ==> r == Success(Exit(0))
    ensures args == [] && name == "echo" ==> r == Success(Echo("\n"))
  {
    if name == "echo" then
      Success(Echo(if args != [] then Text.Join(args, ' ') else "\n"))
    else if name == "type" then
      if args == [] then Failure(Commands.LessArgs(name, args, 1))
      else Success(TypeList(seq(|args|, i requires 0 <= i < |args| => ParseType(args[i], found))))
    else if name == "pwd" then
      if args != [] then Failure(Commands.MoreArgs(name, args, 0)) else Success(Pwd)
    else if name == "cd" then
      if |args| > 1 then Failure(Commands.MoreArgs(name, args, 1))
      else Success(Cd(if args != [] then args[0] else "~"))
    else
      if |args| > 1 then Failure(Commands.MoreArgs(name, args, 1))
      else if args == [] then Success(Exit(0))
      else
        match Decimal.ParseInt(args[0], Decimal.I32)
        case None => Failure(Commands.InvalidInteger(args[0]))
        case Some(n) => Success(Exit(n))
  }

  /** The lines the `Type` loop prints, one per classified name. */
  function Displayed(types: seq<Type>): (lines: seq<string>)
    ensures |lines| == |types|
    ensures forall i :: 0 <= i < |types| ==> lines[i] == Display(types[i])
  {
    seq(|types|, i requires 0 <= i < |types| => Display(types[i]))
  }

  /** `execute` for `Type`: the lines go out one by one, and the first
      failed write ends the loop with -1. */
  method ExecuteTypes(types: seq<Type>, failures: set<nat>) returns (o: Outcome)
    ensures o == WriteLines(Displayed(types), failures)
  {
    var written: seq<string> := [];
    for i := 0 to |types|
      invariant written == Displayed(types)[..i]
      invariant forall j: nat :: j < i ==> j !in failures
    {
      if i in failures {
        FirstFailureUnique(|types|, failures, i);
        return Outcome(written, -1);
      }
      written := written + [Display(types[i])];
    }
    FirstFailureUnique(|types|, failures, |types|);
    return Outcome(written, 0);
  }

  // ---------------------------------------------------------------------
  // Agreement with the newer generation

  /** Both generations print the same line for a name other than `history`. */
  lemma TypeLineAgrees(cmd: string, found: map<string, string>)
    requires cmd != "history"
    ensures Display(ParseType(cmd, found)) == TypeBuiltin.Describe(cmd, TypeBuiltin.Classify(cmd, found))
  {
  }

  /** `history` is a builtin only in the newer generation: here it is looked
      up on the search path. */
  lemma HistoryNotBuiltin(found: map<string, string>)
    ensures !ParseType("history", found).BuiltinCommand?
    ensures TypeBuiltin.Classify("history", found) == TypeBuiltin.Builtin
  {
  }

  /** The newer generation's value for a builtin other than `type`. */
  function Newer(b: Builtin): Builtins.BuiltinCommand
    requires !b.TypeList?
  {
    match b
    case Echo(c) => Builtins.Echo(c)
    case Pwd => Builtins.Pwd
    case Cd(d) => Builtins.Cd(d)
    case Exit(n) => Builtins.Exit(n)
  }

  /** Apart from `type`, both generations parse the builtins they share the
      same way, errors included. */
  lemma ParseAgrees(name: string, args: seq<string>, found: map<string, string>)
    requires name in Names && name != "type"
    ensures Parse(name, args, found).Success? ==> !Parse(name, args, found).value.TypeList?
    ensures Builtins.Parse(name, args)
         == match Parse(name, args, found)
            case Failure(e) => Failure(e)
            case Success(b) => Success(Newer(b))
  {
  }
}
