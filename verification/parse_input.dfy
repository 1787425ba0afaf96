/** The multi-line tokenizer of `src/parse_input.rs`, an older variant of
    `tokenize` with no backslash escapes and no separator characters, whose
    readers can ask for another input line.

    The `BufRead` the code reads from is modelled as the sequence of strings
    its successive `read_line` calls return (each with its line terminator);
    an empty string is end of input.  Read errors are not modelled.  The
    code panics when it needs a new line at the end of input (it indexes the
    empty buffer) and never returns when an unquoted backslash comes up for
    dispatch (the bare-word reader consumes nothing there); the model names
    these outcomes `Panic` and `Stuck`. */
module InputParser {
  import opened Results
  import opened Text
  import Tokenizer

  /** Characters a bare word is made of: anything but whitespace, quotes and
      the backslash. */
  predicate IsPlain(c: char) {
    !IsWhitespace(c) && !Tokenizer.IsSpecial(c)
  }

  predicate AllPlain(s: string) {
    forall k :: 0 <= k < |s| ==> IsPlain(s[k])
  }

  /** ReadState, including the request for another line. */
  datatype ReadState = Finish | Continue | NeedNewLine

  /** What a reader returns: state, text read and characters consumed. */
  datatype Read = Read(state: ReadState, part: string, consumed: nat)

  /** The first position at or after `i` that does not hold a plain
      character. */
  function ScanPlain(buf: string, i: nat): (j: nat)
    requires i <= |buf|
    ensures i <= j <= |buf|
    decreases |buf| - i
  {
    if i < |buf| && IsPlain(buf[i]) then ScanPlain(buf, i + 1) else i
  }

  lemma {:induction false} ScanPlainSpec(buf: string, i: nat)
    requires i <= |buf|
    ensures var j := ScanPlain(buf, i);
      && (forall k :: i <= k < j ==> IsPlain(buf[k]))
      && (j < |buf| ==> !IsPlain(buf[j]))
    decreases |buf| - i
  {
    if i < |buf| && IsPlain(buf[i]) {
      ScanPlainSpec(buf, i + 1);
    }
  }

  /** `read_native`: skip whitespace, read a run of plain characters, and
      finish the token (consuming the whitespace after it) unless a quote or
      backslash follows directly. */
  function ReadNative(buf: string, start: nat): (r: Read)
    requires start < |buf|
    ensures start + r.consumed <= |buf|
    ensures r.state != NeedNewLine
    ensures r.state == Finish ==> r.consumed >= 1
    ensures r.consumed == 0 <==> Tokenizer.IsSpecial(buf[start])
  {
    var a := Tokenizer.SkipWhitespace(buf, start);
    var b := ScanPlain(buf, a);
    if b < |buf| && Tokenizer.IsSpecial(buf[b]) then
      Read(Continue, buf[a..b], b - start)
    else
      var e := Tokenizer.SkipWhitespace(buf, b);
      Read(Finish, buf[a..b], e - start)
  }

  /** What `read_native` reads: after the leading whitespace, the longest run
      of plain characters; the token continues exactly when a quote or
      backslash follows the run, and otherwise the whitespace after the run
      is consumed too. */
  lemma ReadNativeSpec(buf: string, start: nat)
    requires start < |buf|
    ensures var r := ReadNative(buf, start);
      var a := Tokenizer.SkipWhitespace(buf, start);
      && AllPlain(r.part)
      && AllWhitespace(buf[start..a])
      && a + |r.part| <= |buf|
      && r.part == buf[a..a + |r.part|]
      && (a + |r.part| < |buf| ==> !IsPlain(buf[a + |r.part|]))
      && (r.state == Continue <==> a + |r.part| < |buf| && Tokenizer.IsSpecial(buf[a + |r.part|]))
      && (r.state == Continue ==> start + r.consumed == a + |r.part|)
      && (r.state == Finish ==>
            && a + |r.part| <= start + r.consumed
            && AllWhitespace(buf[a + |r.part|..start + r.consumed])
            && (start + r.consumed < |buf| ==> !IsWhitespace(buf[start + r.consumed])))
  {
    var a := Tokenizer.SkipWhitespace(buf, start);
    var b := ScanPlain(buf, a);
    Tokenizer.SkipWhitespaceSpec(buf, start);
    ScanPlainSpec(buf, a);
    if !(b < |buf| && Tokenizer.IsSpecial(buf[b])) {
      Tokenizer.SkipWhitespaceSpec(buf, b);
    }
  }

  /** The first position at or after `i` holding `q`, or the end of the
      buffer. */
  function FindQuote(buf: string, i: nat, q: char): (j: nat)
    requires i <= |buf|
    ensures i <= j <= |buf|
    decreases |buf| - i
  {
    if i < |buf| && buf[i] != q then FindQuote(buf, i + 1, q) else i
  }

  lemma {:induction false} FindQuoteSpec(buf: string, i: nat, q: char)
    requires i <= |buf|
    ensures var j := FindQuote(buf, i, q);
      && (forall k :: i <= k < j ==> buf[k] != q)
      && (j < |buf| ==> buf[j] == q)
    decreases |buf| - i
  {
    if i < |buf| && buf[i] != q {
      FindQuoteSpec(buf, i + 1, q);
    }
  }

  /** `read_single_quote` (with `q` the single quote) and `read_double_quote`
      (with `q` the double quote), which differ only in the quote character.
      The text up to the next `q` is copied verbatim, backslashes included.
      A quote that is the last character asks for a new line having read and
      consumed nothing; an unclosed quote asks for one having read the rest
      of the buffer. */
  function ReadQuote(buf: string, start: nat, q: char): (r: Read)
    requires start < |buf| && buf[start] == q
    ensures start + r.consumed <= |buf|
    ensures r.state != NeedNewLine ==> r.consumed >= 2
  {
    if start + 1 == |buf| then Read(NeedNewLine, [], 0)
    else
      var close := FindQuote(buf, start + 1, q);
      var part := buf[start + 1..close];
      if close < |buf| then
        var state := if close + 1 >= |buf| || IsWhitespace(buf[close + 1]) then Finish else Continue;
        Read(state, part, close - start + 1)
      else
        Read(NeedNewLine, part, close - start)
  }

  /** What a quote reader returns: the verbatim text up to the first closing
      quote, which finishes the token exactly when the buffer ends or
      whitespace follows it; without a closing quote, the rest of the buffer
      and a request for a new line. */
  lemma ReadQuoteSpec(buf: string, start: nat, q: char)
    requires start < |buf| && buf[start] == q
    ensures var r := ReadQuote(buf, start, q);
      && q !in r.part
      && (start + 1 == |buf| ==> r == Read(NeedNewLine, [], 0))
      && (start + 1 < |buf| ==>
            var close := start + 1 + |r.part|;
            && close <= |buf|
            && r.part == buf[start + 1..close]
            && (close < |buf| ==>
                  && buf[close] == q
                  && r.consumed == |r.part| + 2
                  && (r.state == Finish <==> close + 1 == |buf| || IsWhitespace(buf[close + 1]))
                  && r.state != NeedNewLine)
            && (close == |buf| ==> r.state == NeedNewLine && r.consumed == |r.part| + 1))
  {
    if start + 1 < |buf| {
      FindQuoteSpec(buf, start + 1, q);
    }
  }

  /** The reader the scan loop selects for the character at `pos`. */
  function Dispatch(buf: string, pos: nat): (r: Read)
    requires pos < |buf|
    ensures pos + r.consumed <= |buf|
    ensures r.state == Finish ==> r.consumed >= 1
    ensures r.state == Continue && r.consumed == 0 <==> buf[pos] == '\\'
  {
    if buf[pos] == '\'' then ReadQuote(buf, pos, '\'')
    else if buf[pos] == '"' then ReadQuote(buf, pos, '"')
    else ReadNative(buf, pos)
  }

  /** How `parse_input_from_reader` ends: with its tokens, in a panic, or
      never. */
  datatype Outcome = Tokens(tokens: seq<string>) | Panic | Stuck

  /** How the scan of one line ends: at the end of the buffer, with a
      reader asking for a new line, or at a reader that makes no progress.
      The first two carry the pending token and the emitted tokens. */
  datatype LineEnd = EndOfLine(cur: string, acc: seq<string>) | NewLine(cur: string, acc: seq<string>) | NoProgress

  /** The loop of `parse_input_from_reader` on the current buffer from
      position `pos`, with pending token `cur` and emitted tokens `acc`, up
      to the end of the buffer or a request for a new line. */
  function ScanLine(buf: string, pos: nat, cur: string, acc: seq<string>): (e: LineEnd)
    requires pos <= |buf|
    decreases |buf| - pos
  {
    if pos == |buf| then EndOfLine(cur, acc)
    else
      var r := Dispatch(buf, pos);
      var next := cur + r.part;
      match r.state
      case Finish => ScanLine(buf, pos + r.consumed, [], Tokenizer.Flush(acc, next))
      case Continue => if r.consumed == 0 then NoProgress else ScanLine(buf, pos + r.consumed, next, acc)
      case NeedNewLine => NewLine(next, acc)
  }

  /** The loop of `parse_input_from_reader` from the start of line `li`: on
      a request for a new line the next line is read and scanned from its
      start, after emitting the pending token if that line starts with
      whitespace.  A request at the end of input indexes an empty buffer. */
  function Run(lines: seq<string>, li: nat, cur: string, acc: seq<string>): (o: Outcome)
    requires li < |lines|
    decreases |lines| - li
  {
    match ScanLine(lines[li], 0, cur, acc)
    case EndOfLine(c, a) => Tokens(Tokenizer.Flush(a, c))
    case NoProgress => Stuck
    case NewLine(c, a) =>
      if li + 1 == |lines| || lines[li + 1] == [] then Panic
      else if IsWhitespace(lines[li + 1][0]) && c != [] then Run(lines, li + 1, [], a + [c])
      else Run(lines, li + 1, c, a)
  }

  /** `parse_input_from_reader` over the lines `read_line` returns. */
  function ReadTokens(lines: seq<string>): Outcome {
    if lines == [] || lines[0] == [] then Tokens([]) else Run(lines, 0, [], [])
  }

  /** `parse_input`: the first token is the command and the rest are its
      arguments; no token at all gives an empty command.  `None` where the
      reader panics or never returns. */
  function ParseInput(lines: seq<string>): (r: Option<(string, seq<string>)>)
    ensures r.Some? <==> ReadTokens(lines).Tokens?
    ensures r.Some? && r.value.0 != [] ==> [r.value.0] + r.value.1 == ReadTokens(lines).tokens
    ensures r.Some? ==> (r.value.0 == [] <==> ReadTokens(lines).tokens == [])
  {
    match ReadTokens(lines)
    case Tokens(ts) =>
      TokensNonEmpty(lines);
      if ts != [] then Some((ts[0], ts[1..])) else Some(([], []))
    case _ => None
  }

  /** One turn of the line scan on a reader that neither stalls nor asks for
      a new line. */
  lemma ScanStep(buf: string, pos: nat, cur: string, acc: seq<string>, r: Read)
    requires pos < |buf| && Dispatch(buf, pos) == r
    requires r.state != NeedNewLine && (r.state == Finish || r.consumed > 0)
    ensures ScanLine(buf, pos, cur, acc)
         == if r.state == Finish then ScanLine(buf, pos + r.consumed, [], Tokenizer.Flush(acc, cur + r.part))
            else ScanLine(buf, pos + r.consumed, cur + r.part, acc)
  {
  }

  /** A reader that finishes its token: the scan goes on at `next` with the
      pending token emitted. */
  lemma ScanFinishes(buf: string, pos: nat, next: nat, cur: string, acc: seq<string>, acc': seq<string>)
    requires pos < |buf| && Dispatch(buf, pos).state == Finish
    requires next == pos + Dispatch(buf, pos).consumed
    requires acc' == Tokenizer.Flush(acc, cur + Dispatch(buf, pos).part)
    ensures next <= |buf|
    ensures ScanLine(buf, pos, cur, acc) == ScanLine(buf, next, [], acc')
  {
  }

  /** A reader that continues its token and makes progress: the scan goes on
      at `next` with the pending token grown. */
  lemma ScanContinues(buf: string, pos: nat, next: nat, cur: string, grown: string, acc: seq<string>)
    requires pos < |buf| && Dispatch(buf, pos).state == Continue && Dispatch(buf, pos).consumed > 0
    requires next == pos + Dispatch(buf, pos).consumed
    requires grown == cur + Dispatch(buf, pos).part
    ensures next <= |buf|
    ensures ScanLine(buf, pos, cur, acc) == ScanLine(buf, next, grown, acc)
  {
  }

  /** Any other reader ends the scan of the line where it is. */
  lemma ScanStops(buf: string, pos: nat, cur: string, acc: seq<string>)
    requires pos < |buf|
    requires Dispatch(buf, pos).state == NeedNewLine || (Dispatch(buf, pos).state == Continue && Dispatch(buf, pos).consumed == 0)
    ensures ScanLine(buf, pos, cur, acc) == NoProgress
         || ScanLine(buf, pos, cur, acc) == NewLine(cur + Dispatch(buf, pos).part, acc)
  {
  }

  predicate LineEndNonEmpty(e: LineEnd) {
    (e.EndOfLine? || e.NewLine?) ==> Tokenizer.NonEmptyTokens(e.acc)
  }

  /** The line scan never emits an empty token. */
  lemma {:induction false} ScanLineNonEmpty(buf: string, pos: nat, cur: string, acc: seq<string>)
    requires pos <= |buf| && Tokenizer.NonEmptyTokens(acc)
    ensures LineEndNonEmpty(ScanLine(buf, pos, cur, acc))
    decreases |buf| - pos
  {
    if pos < |buf| {
      var r := Dispatch(buf, pos);
      var next := pos + r.consumed;
      if r.state == Finish {
        var acc' := Tokenizer.Flush(acc, cur + r.part);
        assert Tokenizer.NonEmptyTokens(acc');
        ScanFinishes(buf, pos, next, cur, acc, acc');
        ScanLineNonEmpty(buf, next, [], acc');
      } else if r.state == Continue && r.consumed > 0 {
        var grown := cur + r.part;
        ScanContinues(buf, pos, next, cur, grown, acc);
        ScanLineNonEmpty(buf, next, grown, acc);
      } else {
        ScanStops(buf, pos, cur, acc);
      }
    }
  }

  /** The whole loop never emits an empty token. */
  lemma {:induction false} RunNonEmpty(lines: seq<string>, li: nat, cur: string, acc: seq<string>)
    requires li < |lines| && Tokenizer.NonEmptyTokens(acc)
    ensures Run(lines, li, cur, acc).Tokens? ==> Tokenizer.NonEmptyTokens(Run(lines, li, cur, acc).tokens)
    decreases |lines| - li
  {
    var e := ScanLine(lines[li], 0, cur, acc);
    ScanLineNonEmpty(lines[li], 0, cur, acc);
    if e.NewLine? && li + 1 < |lines| && lines[li + 1] != [] {
      if IsWhitespace(lines[li + 1][0]) && e.cur != [] {
        RunNonEmpty(lines, li + 1, [], e.acc + [e.cur]);
      } else {
        RunNonEmpty(lines, li + 1, e.cur, e.acc);
      }
    }
  }

  /** Every token `parse_input_from_reader` returns is non-empty. */
  lemma TokensNonEmpty(lines: seq<string>)
    ensures ReadTokens(lines).Tokens? ==> Tokenizer.NonEmptyTokens(ReadTokens(lines).tokens)
  {
    if lines != [] && lines[0] != [] {
      RunNonEmpty(lines, 0, [], []);
    }
  }

  /** An unclosed quote ends the scan of its line with what it read added to
      the pending token; no quote is recorded as open. */
  lemma UnclosedQuoteAsksForLine(buf: string, pos: nat, cur: string, acc: seq<string>)
    requires pos + 1 < |buf| && (buf[pos] == '\'' || buf[pos] == '"') && buf[pos] !in buf[pos + 1..]
    ensures ScanLine(buf, pos, cur, acc) == NewLine(cur + buf[pos + 1..], acc)
  {
    var q := buf[pos];
    ReadQuoteSpec(buf, pos, q);
    var r := ReadQuote(buf, pos, q);
    assert r.part == buf[pos + 1..];
    assert Dispatch(buf, pos) == r;
  }

  /** A quote that is the last character of its line asks for the next line
      having read nothing, so the quote itself is dropped. */
  lemma TrailingQuoteDropped(buf: string, cur: string, acc: seq<string>)
    requires |buf| > 0 && (buf[|buf| - 1] == '\'' || buf[|buf| - 1] == '"')
    ensures ScanLine(buf, |buf| - 1, cur, acc) == NewLine(cur, acc)
  {
    ReadQuoteSpec(buf, |buf| - 1, buf[|buf| - 1]);
    assert cur + [] == cur;
  }

  /** An unquoted backslash that comes up for dispatch stops all progress. */
  lemma BackslashStuck(buf: string, pos: nat, cur: string, acc: seq<string>)
    requires pos < |buf| && buf[pos] == '\\'
    ensures ScanLine(buf, pos, cur, acc) == NoProgress
  {
  }
}
