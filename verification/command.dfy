/** `Command::parse` and `Args::from_str_slice`: the oldest command reader,
    which splits the trimmed line on single spaces and knows only `exit`.
    Also the error type every argument parser of the builtins returns. */
module Commands {
  import opened Results
  import Text
  import Decimal

  /** `ParseCommandError`, plus the other errors the builtin parsers pass up
      through `?`: a failed integer parse and a formatted message. */
  datatype CommandError =
    | NoCommand(input: string)
    | LessArgs(name: string, args: seq<string>, min: nat)
    | MoreArgs(name: string, args: seq<string>, max: nat)
    | InvalidInteger(text: string)
    | Failed(message: string)

  datatype Command =
    | Unknown(command: string, args: seq<string>)
    | Exit(code: int)

  /** `Args::from_str_slice`: every word trimmed, in order. */
  function ArgsFromSlice(words: seq<string>): (r: seq<string>)
    ensures |r| == |words|
    ensures forall i :: 0 <= i < |r| ==>
      r[i] == Text.Trim(words[i]) && (r[i] != [] ==> !Text.IsWhitespace(r[i][0]))
  {
    seq(|words|, i requires 0 <= i < |words| => Text.Trim(words[i]))
  }

  /** `Command::parse`. */
  function ParseCommand(s: string): (r: Result<Command, CommandError>)
    ensures r.Failure? ==> r.error.MoreArgs? || r.error.InvalidInteger?
    ensures r.Success? && r.value.Exit? ==> Decimal.IntKind.I32.InRange(r.value.code)
  {
    var words := Text.Split(Text.Trim(s), ' ');
    if words == [] then Failure(NoCommand(s))
    else if words[0] == "exit" then
      if |words| > 2 then Failure(MoreArgs(words[0], ArgsFromSlice(words[1..]), 1))
      else if |words| == 1 then Success(Exit(0))
      else
        match Decimal.ParseInt(words[1], Decimal.I32)
        case None => Failure(InvalidInteger(words[1]))
        case Some(code) => Success(Exit(code))
    else Success(Unknown(words[0], ArgsFromSlice(words[1..])))
  }

  // ---------------------------------------------------------------------
  // Reading back rendered commands

  /** Words that can be written on a line and told apart again: non-empty
      and free of whitespace. */
  predicate PlainWords(words: seq<string>) {
    forall i :: 0 <= i < |words| ==> words[i] != [] && Text.NoWhitespace(words[i])
  }

  /** Plain words joined with single spaces read back as the same words. */
  lemma ReadWords(words: seq<string>)
    requires |words| >= 1 && PlainWords(words)
    ensures Text.Split(Text.Trim(Text.Join(words, ' ')), ' ') == words
    ensures ArgsFromSlice(words[1..]) == words[1..]
  {
    Text.JoinEnds(words, ' ');
    Text.TrimNoOp(Text.Join(words, ' '));
    forall i | 0 <= i < |words|
      ensures ' ' !in words[i]
    {
      assert Text.IsWhitespace(' ');
    }
    Text.SplitJoin(words, ' ');
    forall i | 1 <= i < |words|
      ensures Text.Trim(words[i]) == words[i]
    {
      Text.TrimNoOp(words[i]);
    }
  }

  /** Any line whose first word is not `exit` is an unknown command with the
      remaining words as its arguments. */
  lemma UnknownRoundTrip(words: seq<string>)
    requires |words| >= 1 && PlainWords(words) && words[0] != "exit"
    ensures ParseCommand(Text.Join(words, ' ')) == Success(Unknown(words[0], words[1..]))
  {
    ReadWords(words);
  }

  /** `exit` followed by a rendered 32-bit integer exits with that integer. */
  lemma ExitRoundTrip(code: int)
    requires Decimal.IntKind.I32.InRange(code)
    ensures ParseCommand("exit " + Decimal.ShowInt(code)) == Success(Exit(code))
  {
    var n := Decimal.ShowInt(code);
    Decimal.ShowIntPlain(code);
    assert "exit " + n == Text.Join(["exit", n], ' ');
    ReadWords(["exit", n]);
    Decimal.ParseShow(code, Decimal.I32);
  }

  /** `exit` alone, with any surrounding whitespace, exits with 0. */
  lemma ExitAlone(s: string)
    requires Text.Trim(s) == "exit"
    ensures ParseCommand(s) == Success(Exit(0))
  {
    Text.SplitNoSep("exit", ' ');
  }

  /** The pieces of `exit`, two spaces and `t`. */
  lemma SplitDoubleSpace(t: string)
    ensures Text.Split("exit  " + t, ' ') == ["exit"] + ([[]] + Text.Split(t, ' '))
  {
    assert "exit  " + t == "exit" + [' '] + ([' '] + t);
    Text.SplitAfterPiece("exit", ' ', [' '] + t);
    assert ([' '] + t)[1..] == t;
  }

  /** Two spaces after `exit` make an empty first argument, so the command
      has at least two arguments and is rejected. */
  lemma ExitDoubleSpace(t: string)
    requires t != [] && !Text.IsWhitespace(t[|t| - 1])
    ensures ParseCommand("exit  " + t)
         == Failure(MoreArgs("exit", ArgsFromSlice([[]] + Text.Split(t, ' ')), 1))
  {
    var s := "exit  " + t;
    assert s[|s| - 1] == t[|t| - 1];
    Text.TrimNoOp(s);
    SplitDoubleSpace(t);
    var rest: seq<string> := [[]] + Text.Split(t, ' ');
    assert (["exit"] + rest)[1..] == rest;
    ExitTooMany(s, ["exit"] + rest);
  }

  /** `exit` with more than one argument is rejected with the trimmed
      arguments. */
  lemma ExitTooMany(s: string, words: seq<string>)
    requires Text.Split(Text.Trim(s), ' ') == words
    requires |words| > 2 && words[0] == "exit"
    ensures ParseCommand(s) == Failure(MoreArgs("exit", ArgsFromSlice(words[1..]), 1))
  {
  }
}
