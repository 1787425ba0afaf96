/** A reference description of balanced input, the proof that the
    continuation check accepts exactly that, and the proof that it rejects
    or defers the simplest corruptions of it.

    Balanced text is a sequence of chunks: inert runs with no quote,
    backslash or bracket; a backslash and the character it makes inert;
    single-quoted text (anything but the single quote); double-quoted text
    (no double quote, and every backslash paired with the character after
    it); and a bracket pair around balanced text. */
module ValidatorRoundTrip {
  import opened Results
  import opened Validator
  import Seqs

  datatype Chunk =
    | Bare(text: string)
    | Escaped(escaped: char)
    | SingleQuoted(text: string)
    | DoubleQuoted(text: string)
    | Nested(open: char, inner: seq<Chunk>)

  /** Characters with no effect on the check outside quotes. */
  predicate IsInert(c: char) {
    c != '\'' && c != '"' && c != '\\' && !IsOpener(c) && !IsCloser(c)
  }

  predicate AllInert(t: string) {
    forall k :: 0 <= k < |t| ==> IsInert(t[k])
  }

  /** The text between double quotes: characters other than the double
      quote and the backslash, and backslash pairs. */
  predicate DoubleBody(t: string)
    decreases |t|
  {
    t != [] ==>
      if t[0] == '\\' then |t| >= 2 && DoubleBody(t[2..])
      else t[0] != '"' && DoubleBody(t[1..])
  }

  predicate ValidChunks(cs: seq<Chunk>)
    decreases cs
  {
    cs != [] ==>
      && (match cs[0]
          case Bare(t) => AllInert(t)
          case Escaped(_) => true
          case SingleQuoted(t) => '\'' !in t
          case DoubleQuoted(t) => DoubleBody(t)
          case Nested(o, inner) => IsOpener(o) && ValidChunks(inner))
      && ValidChunks(cs[1..])
  }

  function RenderChunks(cs: seq<Chunk>): string
    decreases cs
  {
    if cs == [] then []
    else
      var head := match cs[0]
        case Bare(t) => t
        case Escaped(c) => ['\\', c]
        case SingleQuoted(t) => ['\''] + t + ['\'']
        case DoubleQuoted(t) => ['"'] + t + ['"']
        case Nested(o, inner) => if IsOpener(o) then [o] + RenderChunks(inner) + [CloserOf(o)] else [];
      head + RenderChunks(cs[1..])
  }

  /** Text that is some rendering of balanced chunks. */
  ghost predicate Balanced(s: string) {
    exists cs :: ValidChunks(cs) && RenderChunks(cs) == s
  }

  /** Outside quotes, with no character being skipped. */
  predicate Neutral(st: State) {
    !st.single && !st.double && !st.escaped
  }

  // ---------------------------------------------------------------------
  // Each kind of chunk leaves a neutral state as it found it

  lemma {:induction false} ScanInert(st: State, t: string)
    requires Neutral(st) && AllInert(t)
    ensures ScanFrom(st, t) == Success(st)
    decreases |t|
  {
    if t != [] {
      assert IsInert(t[0]);
      ScanInert(st, t[1..]);
    }
  }

  /** Inside single quotes everything but the single quote is inert,
      backslashes and double quotes included. */
  lemma {:induction false} ScanInSingle(st: State, t: string)
    requires st.single && !st.double && !st.escaped && '\'' !in t
    ensures ScanFrom(st, t) == Success(st)
    decreases |t|
  {
    if t != [] {
      assert t[0] != '\'';
      ScanInSingle(st, t[1..]);
    }
  }

  /** Inside double quotes a backslash pair and every character but the
      double quote are inert, single quotes included. */
  lemma {:induction false} ScanInDouble(st: State, t: string)
    requires !st.single && st.double && !st.escaped && DoubleBody(t)
    ensures ScanFrom(st, t) == Success(st)
    decreases |t|
  {
    if t != [] {
      if t[0] == '\\' {
        assert t == ['\\', t[1]] + t[2..];
        ScanEscaped(st, t[1], t[2..]);
        ScanInDouble(st, t[2..]);
      } else {
        assert t[0] != '"';
        ScanInDouble(st, t[1..]);
      }
    }
  }

  /** A text between two `q` characters, read from `st`: the opening `q`
      leads to `inside`, the text to `last`, and the closing `q` decides. */
  lemma Enclosed(st: State, q: char, t: string, inside: State, last: State)
    requires Step(st, q) == Success(inside) && ScanFrom(inside, t) == Success(last)
    ensures ScanFrom(st, [q] + t + [q]) == Step(last, q)
  {
    Between(st, q, t, q, inside, last);
  }

  lemma ScanSingleQuoted(st: State, t: string)
    requires Neutral(st) && '\'' !in t
    ensures ScanFrom(st, ['\''] + t + ['\'']) == Success(st)
  {
    var inside := st.(single := true);
    ScanInSingle(inside, t);
    Enclosed(st, '\'', t, inside, inside);
  }

  lemma ScanDoubleQuoted(st: State, t: string)
    requires Neutral(st) && DoubleBody(t)
    ensures ScanFrom(st, ['"'] + t + ['"']) == Success(st)
  {
    var inside := st.(double := true);
    ScanInDouble(inside, t);
    Enclosed(st, '"', t, inside, inside);
  }

  /** The opening bracket and its contents read from a neutral state. */
  lemma OpenBracket(st: State, o: char)
    requires Neutral(st) && IsOpener(o)
    ensures Step(st, o) == Success(st.(stack := st.stack + [o]))
    ensures Step(st.(stack := st.stack + [o]), CloserOf(o)) == Success(st)
  {
    BracketStep(st, o);
    var inside := st.(stack := st.stack + [o]);
    BracketStep(inside, CloserOf(o));
    assert inside.stack[..|inside.stack| - 1] == st.stack;
  }

  /** A text between `o` and `c`, read from `st`. */
  lemma Between(st: State, o: char, t: string, c: char, inside: State, last: State)
    requires Step(st, o) == Success(inside) && ScanFrom(inside, t) == Success(last)
    ensures ScanFrom(st, [o] + t + [c]) == Step(last, c)
  {
    assert [o] + t + [c] == [o] + (t + [c]);
    assert ([o] + (t + [c]))[1..] == t + [c];
    ScanConcat(inside, t, [c]);
  }

  /** An opener, text that returns to the state after it, and the matching
      closer. */
  lemma ScanNested(st: State, o: char, t: string)
    requires Neutral(st) && IsOpener(o)
    requires ScanFrom(st.(stack := st.stack + [o]), t) == Success(st.(stack := st.stack + [o]))
    ensures ScanFrom(st, [o] + t + [CloserOf(o)]) == Success(st)
  {
    var inside := st.(stack := st.stack + [o]);
    OpenBracket(st, o);
    Between(st, o, t, CloserOf(o), inside, inside);
  }

  /** Balanced text leaves a neutral state as it found it, whatever the
      stack below. */
  lemma {:induction false} ScanChunks(st: State, cs: seq<Chunk>)
    requires Neutral(st) && ValidChunks(cs)
    ensures ScanFrom(st, RenderChunks(cs)) == Success(st)
    decreases cs
  {
    if cs != [] {
      var rest := RenderChunks(cs[1..]);
      ScanChunks(st, cs[1..]);
      match cs[0]
      case Bare(t) =>
        ScanConcat(st, t, rest);
        ScanInert(st, t);
      case Escaped(c) =>
        assert RenderChunks(cs) == ['\\', c] + rest;
        ScanEscaped(st, c, rest);
      case SingleQuoted(t) =>
        assert RenderChunks(cs) == ['\''] + t + ['\''] + rest;
        ScanConcat(st, ['\''] + t + ['\''], rest);
        ScanSingleQuoted(st, t);
      case DoubleQuoted(t) =>
        assert RenderChunks(cs) == ['"'] + t + ['"'] + rest;
        ScanConcat(st, ['"'] + t + ['"'], rest);
        ScanDoubleQuoted(st, t);
      case Nested(o, inner) =>
        assert RenderChunks(cs) == [o] + RenderChunks(inner) + [CloserOf(o)] + rest;
        ScanChunks(st.(stack := st.stack + [o]), inner);
        ScanNested(st, o, RenderChunks(inner));
        ScanConcat(st, [o] + RenderChunks(inner) + [CloserOf(o)], rest);
    }
  }

  // ---------------------------------------------------------------------
  // The check on whole inputs

  /** Balanced text is accepted as a complete command unless its last chunk
      is an escaped backslash, which asks for another line. */
  lemma BalancedIsValid(cs: seq<Chunk>)
    requires ValidChunks(cs)
    ensures ValidateBrackets(RenderChunks(cs)) == Valid
    ensures var s := RenderChunks(cs);
      Validate(s) == Valid <==> s == [] || s[|s| - 1] != '\\'
  {
    ScanChunks(Start, cs);
  }

  /** A closer after balanced text has nothing to pair with. */
  lemma CloserAfterBalanced(cs: seq<Chunk>, c: char)
    requires ValidChunks(cs) && IsCloser(c)
    ensures Validate(RenderChunks(cs) + [c]) == Invalid(Unpaired(c))
  {
    ScanChunks(Start, cs);
    ScanConcat(Start, RenderChunks(cs), [c]);
    var s := RenderChunks(cs) + [c];
    assert s[|s| - 1] == c;
  }

  /** An opener whose balanced contents run to the end of the text asks for
      another line. */
  lemma OpenerLeftOpen(o: char, cs: seq<Chunk>)
    requires ValidChunks(cs) && IsOpener(o)
    ensures Validate([o] + RenderChunks(cs)) == Incomplete
  {
    var inside := Start.(stack := [o]);
    OpenBracket(Start, o);
    assert Start.stack + [o] == [o];
    ScanChunks(inside, cs);
    var s := [o] + RenderChunks(cs);
    assert s[1..] == RenderChunks(cs);
    assert ScanFrom(Start, s) == Success(inside);
  }

  /** An opener closed by a closer of another kind is not properly closed. */
  lemma WrongCloser(o: char, cs: seq<Chunk>, c: char)
    requires ValidChunks(cs) && IsOpener(o) && IsCloser(c) && c != CloserOf(o)
    ensures Validate([o] + RenderChunks(cs) + [c]) == Invalid(NotClosed(o))
  {
    var inside := Start.(stack := [o]);
    OpenBracket(Start, o);
    assert Start.stack + [o] == [o];
    ScanChunks(inside, cs);
    Between(Start, o, RenderChunks(cs), c, inside, inside);
    BracketStep(inside, c);
    assert OpenerOf(c) != o;
    var s := [o] + RenderChunks(cs) + [c];
    assert s[|s| - 1] == c;
  }

  /** A single quote that is never closed asks for another line, whatever
      brackets follow it. */
  lemma QuoteLeftOpen(t: string)
    requires '\'' !in t && (t == [] || t[|t| - 1] != '\\')
    ensures Validate(['\''] + t) == Incomplete
  {
    var inside := Start.(single := true);
    ScanInSingle(inside, t);
    assert (['\''] + t)[1..] == t;
  }

  // ---------------------------------------------------------------------
  // Reading chunks back: everything the check accepts is balanced

  /** Text read so far that is not yet a whole chunk. */
  datatype Pending =
    | Clear
    | Escaping                        // a backslash outside quotes
    | InSingle(text: string)          // a single quote and the text after it
    | InDouble(text: string)          // a double quote and the text after it
    | InDoubleEscaping(text: string)  // the same, then a backslash

  /** An open bracket and the chunks before it at its own level. */
  datatype Frame = Frame(before: seq<Chunk>, open: char)

  /** Text read so far: the enclosing open brackets, the chunks of the
      innermost level, and the text of an unfinished chunk. */
  datatype Partial = Partial(frames: seq<Frame>, done: seq<Chunk>, pending: Pending)

  const Nothing := Partial([], [], Clear)

  function Openers(fs: seq<Frame>): (r: seq<char>)
    ensures |r| == |fs|
  {
    if fs == [] then [] else Openers(fs[..|fs| - 1]) + [fs[|fs| - 1].open]
  }

  function RenderFrames(fs: seq<Frame>): string {
    if fs == [] then []
    else RenderFrames(fs[..|fs| - 1]) + RenderChunks(fs[|fs| - 1].before) + [fs[|fs| - 1].open]
  }

  function RenderPending(p: Pending): string {
    match p
    case Clear => []
    case Escaping => ['\\']
    case InSingle(t) => ['\''] + t
    case InDouble(t) => ['"'] + t
    case InDoubleEscaping(t) => ['"'] + t + ['\\']
  }

  function RenderPartial(p: Partial): string {
    RenderFrames(p.frames) + RenderChunks(p.done) + RenderPending(p.pending)
  }

  /** Every finished chunk is valid and the unfinished one can still become
      valid. */
  predicate WellFormed(p: Partial) {
    && (forall i :: 0 <= i < |p.frames| ==> ValidChunks(p.frames[i].before) && IsOpener(p.frames[i].open))
    && ValidChunks(p.done)
    && match p.pending
       case InSingle(t) => '\'' !in t
       case InDouble(t) => DoubleBody(t)
       case InDoubleEscaping(t) => DoubleBody(t)
       case _ => true
  }

  /** The scanner's state is the one the partial reading implies. */
  predicate Tracks(p: Partial, st: State) {
    && WellFormed(p)
    && st.stack == Openers(p.frames)
    && st.single == p.pending.InSingle?
    && st.double == (p.pending.InDouble? || p.pending.InDoubleEscaping?)
    && st.escaped == (p.pending.Escaping? || p.pending.InDoubleEscaping?)
  }

  /** One character of the chunk reader. */
  function ChunkStep(p: Partial, c: char): Partial {
    match p.pending
    case Escaping => p.(done := p.done + [Escaped(c)], pending := Clear)
    case InDoubleEscaping(t) => p.(pending := InDouble(t + ['\\', c]))
    case InSingle(t) =>
      if c == '\'' then p.(done := p.done + [SingleQuoted(t)], pending := Clear)
      else p.(pending := InSingle(t + [c]))
    case InDouble(t) =>
      if c == '\\' then p.(pending := InDoubleEscaping(t))
      else if c == '"' then p.(done := p.done + [DoubleQuoted(t)], pending := Clear)
      else p.(pending := InDouble(t + [c]))
    case Clear =>
      if c == '\\' then p.(pending := Escaping)
      else if c == '\'' then p.(pending := InSingle([]))
      else if c == '"' then p.(pending := InDouble([]))
      else if IsOpener(c) then Partial(p.frames + [Frame(p.done, c)], [], Clear)
      else if IsCloser(c) && p.frames != [] then
        var f := p.frames[|p.frames| - 1];
        Partial(p.frames[..|p.frames| - 1], f.before + [Nested(f.open, p.done)], Clear)
      else p.(done := p.done + [Bare([c])])
  }

  /** The chunk reader over `s` from `p`. */
  function ChunkFrom(p: Partial, s: string): Partial
    decreases |s|
  {
    if s == [] then p else ChunkFrom(ChunkStep(p, s[0]), s[1..])
  }

  // Facts about appending one chunk

  lemma {:induction false} RenderAppend(cs: seq<Chunk>, x: Chunk)
    ensures RenderChunks(cs + [x]) == RenderChunks(cs) + RenderChunks([x])
    decreases |cs|
  {
    if cs == [] {
      assert cs + [x] == [x];
    } else {
      assert (cs + [x])[0] == cs[0];
      assert (cs + [x])[1..] == cs[1..] + [x];
      RenderAppend(cs[1..], x);
    }
  }

  lemma {:induction false} ValidAppend(cs: seq<Chunk>, x: Chunk)
    requires ValidChunks(cs) && ValidChunks([x])
    ensures ValidChunks(cs + [x])
    decreases |cs|
  {
    if cs == [] {
      assert cs + [x] == [x];
    } else {
      assert (cs + [x])[0] == cs[0];
      assert (cs + [x])[1..] == cs[1..] + [x];
      ValidAppend(cs[1..], x);
    }
  }

  lemma {:induction false} DoubleBodyPlain(t: string, c: char)
    requires DoubleBody(t) && c != '\\' && c != '"'
    ensures DoubleBody(t + [c])
    decreases |t|
  {
    if t == [] {
      assert [c][1..] == [];
    } else if t[0] == '\\' {
      assert (t + [c])[2..] == t[2..] + [c];
      DoubleBodyPlain(t[2..], c);
    } else {
      assert (t + [c])[1..] == t[1..] + [c];
      DoubleBodyPlain(t[1..], c);
    }
  }

  lemma {:induction false} DoubleBodyPair(t: string, c: char)
    requires DoubleBody(t)
    ensures DoubleBody(t + ['\\', c])
    decreases |t|
  {
    if t == [] {
      assert ['\\', c][2..] == [];
    } else if t[0] == '\\' {
      assert (t + ['\\', c])[2..] == t[2..] + ['\\', c];
      DoubleBodyPair(t[2..], c);
    } else {
      assert (t + ['\\', c])[1..] == t[1..] + ['\\', c];
      DoubleBodyPair(t[1..], c);
    }
  }

  /** A finished chunk added to the innermost level. */
  lemma Finish(p: Partial, x: Chunk, q: Partial)
    requires WellFormed(p) && ValidChunks([x])
    requires q == Partial(p.frames, p.done + [x], Clear)
    ensures WellFormed(q)
    ensures RenderPartial(q) == RenderFrames(p.frames) + RenderChunks(p.done) + RenderChunks([x])
  {
    var done := p.done + [x];
    RenderAppend(p.done, x);
    ValidAppend(p.done, x);
    assert q.frames == p.frames && q.done == done;
    assert RenderPartial(q) == RenderFrames(p.frames) + RenderChunks(done) + [];
  }

  // Each kind of pending text, one character further

  /** Reading `c` keeps the reader in step with the scanner and extends the
      text read by `c`. */
  predicate StepsWith(p: Partial, c: char, next: State) {
    Tracks(ChunkStep(p, c), next) && RenderPartial(ChunkStep(p, c)) == RenderPartial(p) + [c]
  }

  lemma StepEscaping(p: Partial, st: State, c: char, next: State)
    requires Tracks(p, st) && p.pending.Escaping? && Step(st, c) == Success(next)
    ensures StepsWith(p, c, next)
  {
    var x := Escaped(c);
    assert RenderChunks([x]) == ['\\', c];
    Finish(p, x, ChunkStep(p, c));
  }

  lemma StepDoubleEscaping(p: Partial, st: State, c: char, next: State)
    requires Tracks(p, st) && p.pending.InDoubleEscaping? && Step(st, c) == Success(next)
    ensures StepsWith(p, c, next)
  {
    var t := p.pending.text;
    DoubleBodyPair(t, c);
    assert ['"'] + (t + ['\\', c]) == ['"'] + t + ['\\'] + [c];
  }

  lemma StepSingle(p: Partial, st: State, c: char, next: State)
    requires Tracks(p, st) && p.pending.InSingle? && Step(st, c) == Success(next)
    ensures StepsWith(p, c, next)
  {
    if c == '\'' {
      SingleClose(p, st, next);
    } else {
      SinglePlain(p, st, c, next);
    }
  }

  /** The closing single quote finishes the chunk. */
  lemma SingleClose(p: Partial, st: State, next: State)
    requires Tracks(p, st) && p.pending.InSingle? && Step(st, '\'') == Success(next)
    ensures StepsWith(p, '\'', next)
  {
    var t := p.pending.text;
    var x := SingleQuoted(t);
    assert next == st.(single := false);
    assert RenderChunks([x]) == ['\''] + t + ['\''];
    Finish(p, x, ChunkStep(p, '\''));
  }

  /** Any other character joins the text, backslashes included. */
  lemma SinglePlain(p: Partial, st: State, c: char, next: State)
    requires Tracks(p, st) && p.pending.InSingle? && Step(st, c) == Success(next) && c != '\''
    ensures StepsWith(p, c, next)
  {
    var t := p.pending.text;
    assert next == st;
    assert ['\''] + (t + [c]) == ['\''] + t + [c];
  }

  lemma StepDouble(p: Partial, st: State, c: char, next: State)
    requires Tracks(p, st) && p.pending.InDouble? && Step(st, c) == Success(next)
    ensures StepsWith(p, c, next)
  {
    if c == '"' {
      DoubleClose(p, st, next);
    } else if c == '\\' {
      assert next == st.(escaped := true);
    } else {
      DoublePlain(p, st, c, next);
    }
  }

  /** The closing double quote finishes the chunk. */
  lemma DoubleClose(p: Partial, st: State, next: State)
    requires Tracks(p, st) && p.pending.InDouble? && Step(st, '"') == Success(next)
    ensures StepsWith(p, '"', next)
  {
    var t := p.pending.text;
    var x := DoubleQuoted(t);
    assert next == st.(double := false);
    assert RenderChunks([x]) == ['"'] + t + ['"'];
    Finish(p, x, ChunkStep(p, '"'));
  }

  /** Any character but the double quote and the backslash joins the text. */
  lemma DoublePlain(p: Partial, st: State, c: char, next: State)
    requires Tracks(p, st) && p.pending.InDouble? && Step(st, c) == Success(next)
    requires c != '"' && c != '\\'
    ensures StepsWith(p, c, next)
  {
    var t := p.pending.text;
    assert next == st;
    DoubleBodyPlain(t, c);
    assert ['"'] + (t + [c]) == ['"'] + t + [c];
  }

  /** An opener opens a frame holding the chunks before it. */
  lemma StepOpen(p: Partial, st: State, c: char, next: State)
    requires Tracks(p, st) && p.pending.Clear? && IsOpener(c) && Step(st, c) == Success(next)
    ensures StepsWith(p, c, next)
  {
    var fs := p.frames + [Frame(p.done, c)];
    assert fs[..|fs| - 1] == p.frames;
    assert Openers(fs) == Openers(p.frames) + [c];
    assert RenderFrames(fs) == RenderFrames(p.frames) + RenderChunks(p.done) + [c];
    assert ChunkStep(p, c) == Partial(fs, [], Clear);
  }

  /** A closer the scanner accepts closes the innermost frame around the
      chunks read since its opener. */
  lemma StepClose(p: Partial, st: State, c: char, next: State)
    requires Tracks(p, st) && p.pending.Clear? && IsCloser(c) && Step(st, c) == Success(next)
    ensures StepsWith(p, c, next)
  {
    BracketStep(st, c);
    var n := |p.frames|;
    var f := p.frames[n - 1];
    var outer := p.frames[..n - 1];
    var x := Nested(f.open, p.done);
    var q := Partial(outer, f.before + [x], Clear);
    CloseLast(p.frames, outer, f);
    CloserOfOpener(c);
    ClosedFrame(outer, f, p.done, c, x);
    CloseWellFormed(p, outer, f, x, q);
    ChunkStepClose(p, c, q);
  }

  lemma ChunkStepClose(p: Partial, c: char, q: Partial)
    requires p.pending.Clear? && IsCloser(c) && p.frames != []
    requires var f := p.frames[|p.frames| - 1];
      q == Partial(p.frames[..|p.frames| - 1], f.before + [Nested(f.open, p.done)], Clear)
    ensures ChunkStep(p, c) == q
  {
  }

  lemma CloseWellFormed(p: Partial, outer: seq<Frame>, f: Frame, x: Chunk, q: Partial)
    requires WellFormed(p) && p.pending.Clear? && p.frames == outer + [f]
    requires x == Nested(f.open, p.done) && q == Partial(outer, f.before + [x], Clear)
    ensures WellFormed(q)
  {
    assert p.frames[|outer|] == f;
    ValidAppend(f.before, x);
    assert forall i :: 0 <= i < |outer| ==> outer[i] == p.frames[i];
  }

  /** The innermost frame and the ones around it. */
  lemma CloseLast(fs: seq<Frame>, outer: seq<Frame>, f: Frame)
    requires fs != [] && outer == fs[..|fs| - 1] && f == fs[|fs| - 1]
    ensures fs == outer + [f] && Openers(fs) == Openers(outer) + [f.open]
  {
  }

  lemma CloserOfOpener(c: char)
    requires IsCloser(c)
    ensures CloserOf(OpenerOf(c)) == c
  {
  }

  /** Closing the innermost frame adds its closer to the text. */
  lemma ClosedFrame(outer: seq<Frame>, f: Frame, done: seq<Chunk>, c: char, x: Chunk)
    requires IsOpener(f.open) && c == CloserOf(f.open) && x == Nested(f.open, done)
    ensures RenderFrames(outer + [f]) + RenderChunks(done) + [c]
         == RenderFrames(outer) + RenderChunks(f.before + [x])
  {
    var fs := outer + [f];
    assert fs[..|fs| - 1] == outer;
    assert RenderChunks([x]) == [f.open] + RenderChunks(done) + [c];
    RenderAppend(f.before, x);
  }

  /** Any other character outside quotes is an inert chunk of its own. */
  lemma StepInert(p: Partial, st: State, c: char, next: State)
    requires Tracks(p, st) && p.pending.Clear? && IsInert(c) && Step(st, c) == Success(next)
    ensures StepsWith(p, c, next)
  {
    var x := Bare([c]);
    assert AllInert([c]);
    Finish(p, x, ChunkStep(p, c));
  }

  lemma StepClear(p: Partial, st: State, c: char, next: State)
    requires Tracks(p, st) && p.pending.Clear? && Step(st, c) == Success(next)
    ensures StepsWith(p, c, next)
  {
    if IsOpener(c) {
      StepOpen(p, st, c, next);
    } else if IsCloser(c) {
      StepClose(p, st, c, next);
    } else if IsInert(c) {
      StepInert(p, st, c, next);
    }
  }

  /** The reader keeps step with the scanner over a whole text. */
  lemma {:induction false} ChunkSteps(p: Partial, st: State, s: string, last: State)
    requires Tracks(p, st) && ScanFrom(st, s) == Success(last)
    ensures Tracks(ChunkFrom(p, s), last)
    ensures RenderPartial(ChunkFrom(p, s)) == RenderPartial(p) + s
    decreases |s|
  {
    if s != [] {
      var c := s[0];
      var rest := s[1..];
      var next := Step(st, c).value;
      var q := ChunkStep(p, c);
      StepAny(p, st, c, next);
      ChunkSteps(q, next, rest, last);
      assert s == [c] + rest;
      Seqs.Assoc(RenderPartial(p), [c], rest);
    }
  }

  /** One character, whatever is pending. */
  lemma StepAny(p: Partial, st: State, c: char, next: State)
    requires Tracks(p, st) && Step(st, c) == Success(next)
    ensures StepsWith(p, c, next)
  {
    match p.pending
    case Clear => StepClear(p, st, c, next);
    case Escaping => StepEscaping(p, st, c, next);
    case InSingle(_) => StepSingle(p, st, c, next);
    case InDouble(_) => StepDouble(p, st, c, next);
    case InDoubleEscaping(_) => StepDoubleEscaping(p, st, c, next);
  }

  /** The chunk reader's view of a whole text. */
  function ReadChunks(s: string): Partial {
    ChunkFrom(Nothing, s)
  }

  /** Text the scan finishes outside quotes and brackets is balanced, save
      perhaps for one final backslash still waiting for its character. */
  lemma ScannedIsBalanced(s: string, last: State)
    requires ScanFrom(Start, s) == Success(last)
    requires last.stack == [] && !last.single && !last.double
    ensures var r := ReadChunks(s);
      && ValidChunks(r.done) && r.frames == []
      && (r.pending == Clear ==> RenderChunks(r.done) == s)
      && (r.pending != Clear ==> r.pending == Escaping && s == RenderChunks(r.done) + ['\\'])
  {
    var r := ReadChunks(s);
    assert Tracks(Nothing, Start);
    ChunkSteps(Nothing, Start, s, last);
    assert |r.frames| == |Openers(r.frames)| == 0;
    assert RenderPartial(Nothing) + s == s;
    assert RenderPartial(r) == RenderChunks(r.done) + RenderPending(r.pending);
  }

  /** `validate_brackets_and_quote` accepts exactly balanced text and
      balanced text followed by a lone backslash. */
  lemma BracketsBalanced(s: string)
    ensures ValidateBrackets(s) == Valid <==>
      Balanced(s) || (s != [] && s[|s| - 1] == '\\' && Balanced(s[..|s| - 1]))
  {
    if ValidateBrackets(s) == Valid {
      var last := ScanFrom(Start, s).value;
      ScannedIsBalanced(s, last);
      var r := ReadChunks(s);
      if r.pending == Clear {
        assert ValidChunks(r.done) && RenderChunks(r.done) == s;
      } else {
        assert s[..|s| - 1] == RenderChunks(r.done);
        assert ValidChunks(r.done) && RenderChunks(r.done) == s[..|s| - 1];
      }
    } else if Balanced(s) {
      var cs :| ValidChunks(cs) && RenderChunks(cs) == s;
      BalancedIsValid(cs);
    } else if s != [] && s[|s| - 1] == '\\' && Balanced(s[..|s| - 1]) {
      var cs :| ValidChunks(cs) && RenderChunks(cs) == s[..|s| - 1];
      LoneBackslash(cs, s);
    }
  }

  /** Balanced text and a backslash: the scan ends waiting to skip a
      character, outside quotes and brackets. */
  lemma LoneBackslash(cs: seq<Chunk>, s: string)
    requires ValidChunks(cs) && s != [] && s[..|s| - 1] == RenderChunks(cs) && s[|s| - 1] == '\\'
    ensures ValidateBrackets(s) == Valid
  {
    ScanChunks(Start, cs);
    assert s == RenderChunks(cs) + ['\\'];
    ScanConcat(Start, RenderChunks(cs), ['\\']);
  }

  /** The continuation check reports a complete command exactly for
      balanced text that does not end with a backslash. */
  lemma ValidateBalanced(s: string)
    ensures Validate(s) == Valid <==> Balanced(s) && (s == [] || s[|s| - 1] != '\\')
  {
    BracketsBalanced(s);
  }
}
