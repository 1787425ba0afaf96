/** The continuation check of the line editor (`ShellHelper::validate` and
    `validate_brackets_and_quote`): is the text typed so far a complete
    command, one that needs another line, or malformed?

    The Rust loop walks the characters with an iterator and skips the
    character after an active backslash by advancing the iterator.  Here the
    walk is a left fold over the characters whose state remembers that the
    next character is to be skipped. */
module Validator {
  import opened Results

  predicate IsOpener(c: char) {
    c == '(' || c == '[' || c == '{'
  }

  predicate IsCloser(c: char) {
    c == ')' || c == ']' || c == '}'
  }

  /** The opener a closer pairs with. */
  function OpenerOf(c: char): (o: char)
    requires IsCloser(c)
    ensures IsOpener(o)
  {
    if c == ')' then '(' else if c == ']' then '[' else '{'
  }

  /** The closer an opener pairs with. */
  function CloserOf(o: char): (c: char)
    requires IsOpener(o)
    ensures IsCloser(c) && OpenerOf(c) == o
  {
    if o == '(' then ')' else if o == '[' then ']' else '}'
  }

  /** Why a closer was rejected: it met another opener on top of the stack,
      or the stack was empty. */
  datatype Mismatch = NotClosed(wanted: char) | Unpaired(closer: char)

  datatype Validation = Valid | Incomplete | Invalid(mismatch: Mismatch)

  /** The message `ValidationResult::Invalid` carries; `{:?}` prints a
      character between single quotes. */
  function Message(m: Mismatch): (r: string)
    ensures |r| > 21 && r[..21] == "Mismatched brackets: "
  {
    match m
    case NotClosed(w) => "Mismatched brackets: '" + [w] + "' is not properly closed"
    case Unpaired(c) => "Mismatched brackets: '" + [c] + "' is unpaired"
  }

  /** The loop's variables: the two quote flags, the bracket stack (top at
      the end), and whether the previous character was an active backslash
      whose successor is skipped. */
  datatype State = State(single: bool, double: bool, stack: seq<char>, escaped: bool)

  const Start := State(false, false, [], false)

  /** One character of the loop. */
  function Step(st: State, c: char): Result<State, Mismatch> {
    if st.escaped then Success(st.(escaped := false))
    else if c == '\\' && !st.single then Success(st.(escaped := true))
    else if c == '\'' then Success(st.(single := !st.single && !st.double))
    else if c == '"' then Success(st.(double := !st.single && !st.double))
    else if IsOpener(c) && !st.single && !st.double then Success(st.(stack := st.stack + [c]))
    else if IsCloser(c) && !st.single && !st.double then
      if st.stack == [] then Failure(Unpaired(c))
      else
        var top := st.stack[|st.stack| - 1];
        if top == OpenerOf(c) then Success(st.(stack := st.stack[..|st.stack| - 1]))
        else Failure(NotClosed(top))
    else Success(st)
  }

  /** The loop over `s` from state `st`, stopping at the first mismatch. */
  function ScanFrom(st: State, s: string): Result<State, Mismatch>
    decreases |s|
  {
    if s == [] then Success(st)
    else
      match Step(st, s[0])
      case Failure(m) => Failure(m)
      case Success(next) => ScanFrom(next, s[1..])
  }

  /** `validate_brackets_and_quote`. */
  function ValidateBrackets(s: string): (r: Validation)
    ensures r.Invalid? <==> ScanFrom(Start, s).Failure?
  {
    match ScanFrom(Start, s)
    case Failure(m) => Invalid(m)
    case Success(st) =>
      if st.stack == [] && !st.single && !st.double then Valid else Incomplete
  }

  /** `ShellHelper::validate`: text ending with a backslash always asks for
      another line. */
  function Validate(s: string): (r: Validation)
    ensures s != [] && s[|s| - 1] == '\\' ==> r == Incomplete
  {
    if s != [] && s[|s| - 1] == '\\' then Incomplete else ValidateBrackets(s)
  }

  // ---------------------------------------------------------------------
  // Properties of one step

  /** No step enters both quotes at once. */
  lemma StepNeverBothQuotes(st: State, c: char)
    requires !(st.single && st.double)
    ensures Step(st, c).Success? ==> !(Step(st, c).value.single && Step(st, c).value.double)
  {
  }

  /** A backslash outside single quotes makes the next character inert. */
  lemma EscapeInert(st: State, c: char)
    requires !st.escaped && !st.single
    ensures Step(st, '\\') == Success(st.(escaped := true))
    ensures Step(st.(escaped := true), c) == Success(st)
  {
  }

  /** Inside either quote brackets change nothing. */
  lemma QuotedBracketInert(st: State, c: char)
    requires !st.escaped && (st.single || st.double)
    requires IsOpener(c) || IsCloser(c)
    ensures Step(st, c) == Success(st)
  {
  }

  /** Outside quotes an opener is pushed, and a closer pops its own opener,
      rejects another opener as not properly closed, or is unpaired. */
  lemma BracketStep(st: State, c: char)
    requires !st.escaped && !st.single && !st.double
    ensures IsOpener(c) ==> Step(st, c) == Success(st.(stack := st.stack + [c]))
    ensures IsCloser(c) && st.stack == [] ==> Step(st, c) == Failure(Unpaired(c))
    ensures IsCloser(c) && st.stack != [] && st.stack[|st.stack| - 1] == OpenerOf(c)
         ==> Step(st, c) == Success(st.(stack := st.stack[..|st.stack| - 1]))
    ensures IsCloser(c) && st.stack != [] && st.stack[|st.stack| - 1] != OpenerOf(c)
         ==> Step(st, c) == Failure(NotClosed(st.stack[|st.stack| - 1]))
  {
  }

  // ---------------------------------------------------------------------
  // Invariants of the whole loop

  predicate AllOpeners(stack: seq<char>) {
    forall k :: 0 <= k < |stack| ==> IsOpener(stack[k])
  }

  /** The scanner is never inside both quotes at once, and its stack holds
      only openers. */
  lemma {:induction false} ScanInvariant(st: State, s: string)
    requires !(st.single && st.double) && AllOpeners(st.stack)
    ensures ScanFrom(st, s).Success? ==>
      var r := ScanFrom(st, s).value;
      !(r.single && r.double) && AllOpeners(r.stack)
    decreases |s|
  {
    if s != [] {
      match Step(st, s[0])
      case Failure(_) =>
      case Success(next) =>
        StepNeverBothQuotes(st, s[0]);
        assert AllOpeners(next.stack);
        ScanInvariant(next, s[1..]);
    }
  }

  /** The loop over a concatenation continues from where the first part
      left off. */
  lemma {:induction false} ScanConcat(st: State, a: string, b: string)
    ensures ScanFrom(st, a + b)
         == match ScanFrom(st, a)
            case Failure(m) => Failure(m)
            case Success(mid) => ScanFrom(mid, b)
    decreases |a|
  {
    if a == [] {
      assert a + b == b;
    } else {
      assert (a + b)[0] == a[0];
      assert (a + b)[1..] == a[1..] + b;
      match Step(st, a[0])
      case Failure(_) =>
      case Success(next) => ScanConcat(next, a[1..], b);
    }
  }

  /** An escaped character, whatever it is, leaves no trace. */
  lemma ScanEscaped(st: State, c: char, s: string)
    requires !st.escaped && !st.single
    ensures ScanFrom(st, ['\\', c] + s) == ScanFrom(st, s)
  {
    EscapeInert(st, c);
    assert (['\\', c] + s)[1..] == [c] + s;
    assert ([c] + s)[1..] == s;
  }
}
