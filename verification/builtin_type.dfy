/** The `type` builtin of `src/builtin/type_.rs`: its argument check and the
    report it prints, one line per name.

    `find_in_path` searches the directories of `PATH`; here it is the map
    `found` from the names it finds to the paths it returns. */
module TypeBuiltin {
  import opened Results
  import opened Output
  import opened Commands
  import BuiltinSet

  datatype Type = Type(commands: seq<string>)

  /** `Type::parse`: at least one name is needed, and the names are kept as
      given. */
  function Parse(name: string, args: seq<string>): (r: Result<Type, CommandError>)
    ensures r.Success? <==> args != []
    ensures r.Success? ==> r.value.commands == args
    ensures r.Failure? ==> r.error == LessArgs(name, [], 1)
  {
    if args == [] then Failure(LessArgs(name, args, 1))
    else Success(Type(args))
  }

  /** What `type` says about a name. */
  datatype Kind = Builtin | OnPath(path: string) | NotFound

  /** The classification order: the builtin set first, then the search path. */
  function Classify(cmd: string, found: map<string, string>): (k: Kind)
    ensures k.Builtin? <==> cmd in BuiltinSet.Names
    ensures k.OnPath? <==> cmd !in BuiltinSet.Names && cmd in found
    ensures k.OnPath? ==> k.path == found[cmd]
  {
    if cmd in BuiltinSet.Names then Builtin
    else if cmd in found then OnPath(found[cmd])
    else NotFound
  }

  /** The line printed for a classified name. */
  function Describe(cmd: string, k: Kind): (line: string)
    ensures |line| > |cmd| && line[..|cmd|] == cmd
  {
    match k
    case Builtin => cmd + " is a shell builtin"
    case OnPath(p) => cmd + " is " + p
    case NotFound => cmd + ": not found"
  }

  /** The report for a list of names: one line per name, in order. */
  function Report(cmds: seq<string>, found: map<string, string>): (lines: seq<string>)
    ensures |lines| == |cmds|
    ensures forall i :: 0 <= i < |cmds| ==>
      lines[i] == Describe(cmds[i], Classify(cmds[i], found)) && lines[i][..|cmds[i]|] == cmds[i]
  {
    seq(|cmds|, i requires 0 <= i < |cmds| => Describe(cmds[i], Classify(cmds[i], found)))
  }

  /** Reads the kind back from the text after the name. */
  function ReadKind(tail: string): Option<Kind> {
    if tail == " is a shell builtin" then Some(Builtin)
    else if tail == ": not found" then Some(NotFound)
    else if |tail| >= 4 && tail[..4] == " is " then Some(OnPath(tail[4..]))
    else None
  }

  /** The line tells the three kinds apart, unless a path happens to read
      `a shell builtin`. */
  lemma ReadDescribe(cmd: string, k: Kind)
    requires k.OnPath? ==> k.path != "a shell builtin"
    ensures ReadKind(Describe(cmd, k)[|cmd|..]) == Some(k)
  {
    var tail := match k
      case Builtin => " is a shell builtin"
      case OnPath(p) => " is " + p
      case NotFound => ": not found";
    DescribeTail(cmd, k, tail);
    match k
    case Builtin =>
    case NotFound =>
      assert |tail| != |" is a shell builtin"|;
    case OnPath(p) =>
      ReadPath(p, tail);
  }

  /** The text after the name is the kind's own wording. */
  lemma DescribeTail(cmd: string, k: Kind, tail: string)
    requires tail == match k
      case Builtin => " is a shell builtin"
      case OnPath(p) => " is " + p
      case NotFound => ": not found"
    ensures Describe(cmd, k)[|cmd|..] == tail
  {
    assert Describe(cmd, k) == cmd + tail;
  }

  /** A path other than `a shell builtin` is read back as that path. */
  lemma ReadPath(p: string, tail: string)
    requires p != "a shell builtin" && tail == " is " + p
    ensures ReadKind(tail) == Some(OnPath(p))
  {
    assert tail[..4] == " is " && tail[4..] == p;
    assert tail[0] != ':';
    assert " is a shell builtin"[4..] == "a shell builtin";
  }

  /** `Type::execute`: the lines go out one by one, and the first failed
      write ends the loop with -1. */
  method Execute(t: Type, found: map<string, string>, failures: set<nat>) returns (o: Outcome)
    ensures o == WriteLines(Report(t.commands, found), failures)
  {
    var cmds := t.commands;
    var written: seq<string> := [];
    for i := 0 to |cmds|
      invariant written == Report(cmds, found)[..i]
      invariant forall j: nat :: j < i ==> j !in failures
    {
      var line := Describe(cmds[i], Classify(cmds[i], found));
      if i in failures {
        FirstFailureUnique(|cmds|, failures, i);
        return Outcome(written, -1);
      }
      written := written + [line];
    }
    FirstFailureUnique(|cmds|, failures, |cmds|);
    return Outcome(written, 0);
  }
}
