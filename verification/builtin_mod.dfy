/** The names `BUILTIN_COMMANDS` lists in `src/builtin/mod.rs`. */
module BuiltinSet {
  const Names: set<string> := {"echo", "type", "history", "pwd", "cd", "exit"}
}

/** `BuiltinCommand` of `src/builtin/mod.rs`: the argument parser of the six
    builtins, and the parts of `execute` that decide what is printed and
    which exit code results. */
module Builtins {
  import opened Results
  import opened Output
  import Commands
  import Text
  import Decimal
  import BuiltinSet
  import TypeBuiltin
  import HistoryBuiltin

  datatype BuiltinCommand =
    | Echo(content: string)
    | TypeOf(ty: TypeBuiltin.Type)
    | History(n: int)
    | Pwd
    | Cd(dir: string)
    | Exit(code: int)

  /** The builtin a command value belongs to. */
  function NameOf(b: BuiltinCommand): (name: string)
    ensures name in BuiltinSet.Names
  {
    match b
    case Echo(_) => "echo"
    case TypeOf(_) => "type"
    case History(_) => "history"
    case Pwd => "pwd"
    case Cd(_) => "cd"
    case Exit(_) => "exit"
  }

  /** The most arguments a builtin takes, for those with a limit. */
  function MaxArgs(name: string): Option<nat> {
    if name == "pwd" then Some(0)
    else if name == "history" || name == "cd" || name == "exit" then Some(1)
    else None
  }

  /** What a builtin given no arguments stands for, `type` aside. */
  function Default(name: string): BuiltinCommand
    requires name in BuiltinSet.Names && name != "type"
  {
    if name == "echo" then Echo("\n")
    else if name == "history" then History(-1)
    else if name == "pwd" then Pwd
    else if name == "cd" then Cd("~")
    else Exit(0)
  }

  /** `BuiltinCommand::parse`: only names in `BUILTIN_COMMANDS` reach it. */
  function Parse(name: string, args: seq<string>): (r: Result<BuiltinCommand, Commands.CommandError>)
    requires name in BuiltinSet.Names
    ensures (r.Failure? && r.error.MoreArgs?) <==> MaxArgs(name).Some? && |args| > MaxArgs(name).value
    ensures r.Failure? && r.error.MoreArgs? ==> r.error == Commands.MoreArgs(name, args, MaxArgs(name).value)
    ensures (r.Failure? && r.error.LessArgs?) <==> name == "type" && args == []
    ensures r.Failure? ==> r.error.MoreArgs? || r.error.LessArgs? || r.error.InvalidInteger?
    ensures r.Failure? && r.error.InvalidInteger? ==> |args| == 1 && r.error.text == args[0]
    ensures r.Success? ==> NameOf(r.value) == name
    ensures args == [] && name != "type" ==> r == Success(Default(name))
    ensures r.Success? && r.value.History? ==> Decimal.IntKind.I64.InRange(r.value.n)
    ensures r.Success? && r.value.Exit? ==> Decimal.IntKind.I32.InRange(r.value.code)
  {
    if name == "echo" then
      Success(Echo(if args != [] then Text.Join(args, ' ') else "\n"))
    else if name == "type" then
      match TypeBuiltin.Parse(name, args)
      case Failure(e) => Failure(e)
      case Success(t) => Success(TypeOf(t))
    else if name == "history" then
      if |args| > 1 then Failure(Commands.MoreArgs(name, args, 1))
      else if args == [] then Success(History(-1))
      else
        match Decimal.ParseInt(args[0], Decimal.I64)
        case None => Failure(Commands.InvalidInteger(args[0]))
        case Some(n) => Success(History(n))
    else if name == "pwd" then
      if args != [] then Failure(Commands.MoreArgs(name, args, 0)) else Success(Pwd)
    else if name == "cd" then
      if |args| > 1 then Failure(Commands.MoreArgs(name, args, 1))
      else Success(Cd(if args != [] then args[0] else "~"))
    else
      if |args| > 1 then Failure(Commands.MoreArgs(name, args, 1))
      else if args == [] then Success(Exit(0))
      else
        match Decimal.ParseInt(args[0], Decimal.I32)
        case None => Failure(Commands.InvalidInteger(args[0]))
        case Some(n) => Success(Exit(n))
  }

  // ---------------------------------------------------------------------
  // Reading arguments back

  /** Echoing words without spaces prints text that splits back into the
      same words; an empty word shows up as a doubled space. */
  lemma EchoRoundTrip(args: seq<string>)
    requires args != [] && forall i :: 0 <= i < |args| ==> ' ' !in args[i]
    ensures Parse("echo", args).Success?
    ensures Text.Split(Parse("echo", args).value.content, ' ') == args
  {
    Text.SplitJoin(args, ' ');
  }

  /** `exit` and `history` take back the number they are given. */
  lemma NumberRoundTrip(n: int)
    ensures Decimal.IntKind.I32.InRange(n) ==> Parse("exit", [Decimal.ShowInt(n)]) == Success(Exit(n))
    ensures Decimal.IntKind.I64.InRange(n) ==> Parse("history", [Decimal.ShowInt(n)]) == Success(History(n))
  {
    if Decimal.IntKind.I32.InRange(n) {
      Decimal.ParseShow(n, Decimal.I32);
    }
    if Decimal.IntKind.I64.InRange(n) {
      Decimal.ParseShow(n, Decimal.I64);
    }
  }

  // ---------------------------------------------------------------------
  // Executing

  /** The text `writeln!` puts out for a sequence of lines. */
  function Printed(lines: seq<string>): (text: string)
    ensures lines != [] ==> text != [] && text[|text| - 1] == '\n'
  {
    if lines == [] then [] else Printed(lines[..|lines| - 1]) + lines[|lines| - 1] + "\n"
  }

  /** `execute` for `Echo`: one `writeln!` of the content, 0 when it
      succeeds and -1 when it fails. */
  function ExecuteEcho(content: string, failures: set<nat>): (o: Outcome)
    ensures o.code == WriteStatus(0 in failures)
    ensures o.code == 0 ==> Printed(o.written) == content + "\n"
    ensures o.code != 0 ==> o.written == []
  {
    WriteLines([content], failures)
  }

  /** `echo` with no arguments prints two line feeds: its content is already
      a line feed, and `writeln!` adds another. */
  lemma EchoAlone(failures: set<nat>)
    requires 0 !in failures
    ensures Printed(ExecuteEcho(Parse("echo", []).value.content, failures).written) == "\n\n"
  {
  }

  /** `execute` for `Pwd`: the working directory, when there is one, is
      written as a line; without one, `invalid directory` goes to the error
      writer and the exit code is -1. */
  function ExecutePwd(cwd: Option<string>, failures: set<nat>): (r: (Outcome, seq<string>))
    ensures r.0.code == 0 <==> cwd.Some? && 0 !in failures
    ensures r.0.code == 0 || r.0.code == -1
    ensures r.0.code == 0 ==> r.0.written == [cwd.value]
    ensures cwd.None? <==> r.1 == ["invalid directory"]
    ensures cwd.Some? ==> r.1 == []
  {
    match cwd
    case Some(dir) => (WriteLines([dir], failures), [])
    case None => (Outcome([], -1), ["invalid directory"])
  }

  /** The index `execute` for `History(n)` starts listing at: `n == -1`
      lists everything, any other `n` the last `n` entries.  `None` where
      `num - n as usize` underflows and panics: a negative `n` other than
      -1 (the cast makes it larger than any history), or one above the
      history's length. */
  function HistoryStart(n: int, num: nat): (start: Option<nat>)
    ensures start.None? <==> n < -1 || n > num
    ensures start.Some? ==> start.value <= num && num - start.value == if n == -1 then num else n
  {
    if n == -1 then Some(0)
    else if n < -1 || n > num then None
    else Some(num - n)
  }

  /** `execute` for `History(n)`: the same numbered listing as the `history`
      builtin of `src/builtin/history.rs`, from `HistoryStart`; `None` where
      the start index underflows. */
  method ExecuteHistory(entries: seq<string>, n: int, width: nat, failures: set<nat>)
    returns (o: Option<Outcome>)
    ensures o.None? <==> n < -1 || n > |entries|
    ensures o.Some? ==> o.value == WriteLines(HistoryBuiltin.FormatRows(
      HistoryBuiltin.ShowRows(entries, if n == -1 then None else Some(n)).value, width), failures)
    ensures o.Some? && o.value.code == 0 ==> |o.value.written| == if n == -1 then |entries| else n
  {
    var start := HistoryStart(n, |entries|);
    if start.None? {
      return None;
    }
    var count := |entries| - start.value;
    o := HistoryBuiltin.ExecuteShow(entries, Some(count), width, failures);
    ShowAll(entries);
  }

  /** Listing the last `|entries|` entries is listing all of them. */
  lemma ShowAll(entries: seq<string>)
    ensures HistoryBuiltin.ShowRows(entries, Some(|entries|)) == HistoryBuiltin.ShowRows(entries, None)
  {
    HistoryBuiltin.ShowLast(entries, |entries|);
  }
}
