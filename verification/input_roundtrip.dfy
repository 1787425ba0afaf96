/** The proof that `parse_input_from_reader` reads the lines described in
    `InputRender` as intended. */
module InputRoundTrip {
  import opened Text
  import Tokenizer
  import opened InputParser
  import opened InputRender
  import Seqs

  // ---------------------------------------------------------------------
  // First characters

  lemma PieceFirstChar(p: Piece)
    requires ValidPiece(p)
    ensures RenderPiece(p) != [] && !IsWhitespace(RenderPiece(p)[0])
    ensures p.Quoted? ==> RenderPiece(p)[0] == p.quote
    ensures p.Plain? ==> IsPlain(RenderPiece(p)[0])
  {
  }

  lemma WordFirstChar(ps: seq<Piece>)
    requires ValidWord(ps)
    ensures RenderWord(ps) != [] && RenderWord(ps)[0] == RenderPiece(ps[0])[0]
  {
    PieceFirstChar(ps[0]);
  }

  lemma LineFirstChar(ws: seq<seq<Piece>>, gaps: seq<string>)
    requires ValidWords(ws) && |gaps| == |ws| - 1
    ensures RenderLine(ws, gaps) != [] && !IsWhitespace(RenderLine(ws, gaps)[0])
  {
    WordFirstChar(ws[0]);
    PieceFirstChar(ws[0][0]);
  }

  // ---------------------------------------------------------------------
  // The readers on rendered pieces

  lemma QuoteLayout(buf: string, pos: nat, q: char, t: string)
    requires At(buf, pos, [q] + t + [q])
    ensures pos + 1 + |t| < |buf|
    ensures buf[pos] == q && buf[pos + 1 + |t|] == q
    ensures buf[pos + 1..pos + 1 + |t|] == t
  {
    assert [q] + t + [q] == [q] + (t + [q]);
    AtConcat(buf, pos, [q], t + [q]);
    AtConcat(buf, pos + 1, t, [q]);
    AtChar(buf, pos, [q], 0);
    AtChar(buf, pos + 1 + |t|, [q], 0);
    AtSlice(buf, pos + 1, t);
  }

  /** A quote reader stops at the first closing quote. */
  lemma QuoteReads(buf: string, pos: nat, q: char, t: string)
    requires q !in t
    requires pos + 1 + |t| < |buf|
    requires buf[pos] == q && buf[pos + 1 + |t|] == q
    requires buf[pos + 1..pos + 1 + |t|] == t
    ensures var close := pos + 1 + |t|;
      var state := if close + 1 == |buf| || IsWhitespace(buf[close + 1]) then Finish else Continue;
      ReadQuote(buf, pos, q) == Read(state, t, |t| + 2)
  {
    ReadQuoteSpec(buf, pos, q);
    var r := ReadQuote(buf, pos, q);
    if |r.part| < |t| {
      assert false;
    } else if |r.part| > |t| {
      assert false;
    }
  }

  /** What the loop dispatches to on a rendered quoted piece. */
  lemma QuotedDispatch(buf: string, pos: nat, q: char, t: string)
    requires IsQuote(q) && q !in t && At(buf, pos, [q] + t + [q])
    ensures var close := pos + 1 + |t|;
      var state := if close + 1 == |buf| || IsWhitespace(buf[close + 1]) then Finish else Continue;
      && close < |buf|
      && Dispatch(buf, pos) == Read(state, t, |t| + 2)
  {
    QuoteLayout(buf, pos, q, t);
    QuoteReads(buf, pos, q, t);
  }

  /** A plain run is read to its end when no plain character follows it. */
  lemma {:induction false} ScanPlainRun(buf: string, pos: nat, t: string)
    requires At(buf, pos, t) && AllPlain(t)
    requires pos + |t| < |buf| ==> !IsPlain(buf[pos + |t|])
    ensures ScanPlain(buf, pos) == pos + |t|
    decreases |t|
  {
    AtSlice(buf, pos, t);
    if t != [] {
      ScanPlainRun(buf, pos + 1, t[1..]);
    }
  }

  /** The bare-word reader on a plain run followed by a quote. */
  lemma PlainBeforeQuote(buf: string, pos: nat, t: string)
    requires t != [] && AllPlain(t) && At(buf, pos, t)
    requires pos + |t| < |buf| && IsQuote(buf[pos + |t|])
    ensures Dispatch(buf, pos) == Read(Continue, t, |t|)
  {
    AtChar(buf, pos, t, 0);
    AtSlice(buf, pos, t);
    ScanPlainRun(buf, pos, t);
    assert Tokenizer.SkipWhitespace(buf, pos) == pos;
  }

  /** The bare-word reader on a plain run that ends its word at `end`: the
      run, and the whitespace after it up to `k`. */
  lemma PlainBeforeSpace(buf: string, pos: nat, end: nat, k: nat, t: string)
    requires t != [] && AllPlain(t) && At(buf, pos, t)
    requires end == pos + |t| && WordEndsAt(buf, end, k)
    ensures Dispatch(buf, pos) == Read(Finish, t, k - pos)
  {
    AtChar(buf, pos, t, 0);
    AtSlice(buf, pos, t);
    ScanPlainRun(buf, pos, t);
    assert Tokenizer.SkipWhitespace(buf, pos) == pos;
  }

  /** The bare-word reader started on whitespace that runs up to `k` reads
      what it reads from `k`, consuming the whitespace as well. */
  lemma NativeShift(buf: string, q: nat, k: nat)
    requires q <= k < |buf| && Tokenizer.SkipWhitespace(buf, q) == k
    ensures var g := ReadNative(buf, k);
      ReadNative(buf, q) == Read(g.state, g.part, g.consumed + (k - q))
  {
    Tokenizer.SkipWhitespaceSpec(buf, q);
    assert Tokenizer.SkipWhitespace(buf, k) == k;
  }

  // ---------------------------------------------------------------------
  // The line scan on rendered text

  /** Whitespace running up to `k` is skipped without effect when no token
      is pending. */
  lemma GapSkip(buf: string, q: nat, k: nat, acc: seq<string>)
    requires q < k <= |buf| && Tokenizer.SkipWhitespace(buf, q) == k
    ensures ScanLine(buf, q, [], acc) == ScanLine(buf, k, [], acc)
  {
    assert IsWhitespace(buf[q]);
    var f := ReadNative(buf, q);
    assert Dispatch(buf, q) == f;
    if k < |buf| && IsPlain(buf[k]) {
      GapBeforePlain(buf, q, k, acc);
    } else {
      assert ScanPlain(buf, k) == k;
      if k < |buf| {
        Tokenizer.SkipWhitespaceSpec(buf, q);
        assert f == Read(Continue, [], k - q);
        ScanContinues(buf, q, k, [], [], acc);
      } else {
        assert f == Read(Finish, [], k - q);
        ScanFinishes(buf, q, k, [], acc, acc);
      }
    }
  }

  /** Whitespace before a plain run: the reader started on the whitespace
      reads what the reader started on the run reads. */
  lemma GapBeforePlain(buf: string, q: nat, k: nat, acc: seq<string>)
    requires q <= k < |buf| && Tokenizer.SkipWhitespace(buf, q) == k && IsPlain(buf[k])
    ensures ScanLine(buf, q, [], acc) == ScanLine(buf, k, [], acc)
  {
    NativeShift(buf, q, k);
    var g := ReadNative(buf, k);
    var next := k + g.consumed;
    var grown := [] + g.part;
    assert IsWhitespace(buf[q]) || q == k;
    assert Dispatch(buf, q) == ReadNative(buf, q);
    assert Dispatch(buf, k) == g;
    if g.state == Finish {
      var acc' := Tokenizer.Flush(acc, grown);
      ScanFinishes(buf, q, next, [], acc, acc');
      ScanFinishes(buf, k, next, [], acc, acc');
    } else {
      ScanContinues(buf, q, next, [], grown, acc);
      ScanContinues(buf, k, next, [], grown, acc);
    }
  }

  /** A quoted piece followed directly by more of the word only extends the
      pending token. */
  lemma QuotedContinues(buf: string, pos: nat, next: nat, q: char, t: string, cur: string,
                        grown: string, acc: seq<string>)
    requires IsQuote(q) && q !in t && At(buf, pos, [q] + t + [q])
    requires next == pos + |t| + 2 && next < |buf| && !IsWhitespace(buf[next])
    requires grown == cur + t
    ensures ScanLine(buf, pos, cur, acc) == ScanLine(buf, next, grown, acc)
  {
    QuotedDispatch(buf, pos, q, t);
    ScanContinues(buf, pos, next, cur, grown, acc);
  }

  /** A plain run followed directly by a quote only extends the pending
      token. */
  lemma PlainContinues(buf: string, pos: nat, next: nat, t: string, cur: string, grown: string,
                       acc: seq<string>)
    requires t != [] && AllPlain(t) && At(buf, pos, t)
    requires next == pos + |t| && next < |buf| && IsQuote(buf[next])
    requires grown == cur + t
    ensures ScanLine(buf, pos, cur, acc) == ScanLine(buf, next, grown, acc)
  {
    PlainBeforeQuote(buf, pos, t);
    ScanContinues(buf, pos, next, cur, grown, acc);
  }

  /** A plain run that ends its word, at `end`, emits the pending token and
      its whitespace, up to `k`, is consumed. */
  lemma PlainEnds(buf: string, pos: nat, end: nat, k: nat, t: string, cur: string, value: string,
                  acc: seq<string>)
    requires t != [] && AllPlain(t) && At(buf, pos, t)
    requires end == pos + |t| && WordEndsAt(buf, end, k)
    requires value == cur + t
    ensures ScanLine(buf, pos, cur, acc) == ScanLine(buf, k, [], Tokenizer.Flush(acc, value))
  {
    PlainBeforeSpace(buf, pos, end, k, t);
    ScanFinishes(buf, pos, k, cur, acc, Tokenizer.Flush(acc, value));
  }

  /** A quoted piece that ends its word, at `end`, emits the pending token,
      and the whitespace after it, up to `k`, is skipped. */
  lemma QuotedEnds(buf: string, pos: nat, end: nat, k: nat, q: char, t: string, cur: string,
                   value: string, acc: seq<string>)
    requires IsQuote(q) && q !in t && At(buf, pos, [q] + t + [q])
    requires end == pos + |t| + 2 && WordEndsAt(buf, end, k)
    requires value == cur + t
    ensures ScanLine(buf, pos, cur, acc) == ScanLine(buf, k, [], Tokenizer.Flush(acc, value))
  {
    var acc' := Tokenizer.Flush(acc, value);
    QuotedDispatch(buf, pos, q, t);
    ScanFinishes(buf, pos, end, cur, acc, acc');
    if end < k {
      GapSkip(buf, end, k, acc');
    }
  }

  /** Where the rest of a word starts, and what character is there. */
  lemma WordHeadLayout(buf: string, pos: nat, next: nat, ps: seq<Piece>)
    requires ValidWord(ps) && |ps| > 1 && At(buf, pos, RenderWord(ps))
    requires next == pos + |RenderPiece(ps[0])|
    ensures At(buf, pos, RenderPiece(ps[0])) && ValidPiece(ps[0])
    ensures At(buf, next, RenderWord(ps[1..])) && ValidWord(ps[1..])
    ensures next + |RenderWord(ps[1..])| == pos + |RenderWord(ps)|
    ensures next < |buf| && !IsWhitespace(buf[next])
    ensures ps[0].Plain? ==> IsQuote(buf[next])
  {
    var r := RenderPiece(ps[0]);
    var rest := ps[1..];
    assert RenderWord(ps) == r + RenderWord(rest);
    AtConcat(buf, pos, r, RenderWord(rest));
    WordFirstChar(rest);
    PieceFirstChar(rest[0]);
    AtChar(buf, next, RenderWord(rest), 0);
  }

  /** A piece followed directly by more of its word only extends the
      pending token. */
  lemma PieceExtends(buf: string, pos: nat, next: nat, p: Piece, cur: string, grown: string,
                     acc: seq<string>)
    requires ValidPiece(p) && At(buf, pos, RenderPiece(p))
    requires next == pos + |RenderPiece(p)| && next < |buf| && !IsWhitespace(buf[next])
    requires p.Plain? ==> IsQuote(buf[next])
    requires grown == cur + p.text
    ensures ScanLine(buf, pos, cur, acc) == ScanLine(buf, next, grown, acc)
  {
    if p.Plain? {
      PlainContinues(buf, pos, next, p.text, cur, grown, acc);
    } else {
      QuotedContinues(buf, pos, next, p.quote, p.text, cur, grown, acc);
    }
  }

  /** A piece that ends its word, at `end`, emits the pending token, and the
      whitespace after it, up to `k`, is consumed. */
  lemma PieceEnds(buf: string, pos: nat, end: nat, k: nat, p: Piece, cur: string, value: string,
                  acc: seq<string>)
    requires ValidPiece(p) && At(buf, pos, RenderPiece(p))
    requires end == pos + |RenderPiece(p)| && WordEndsAt(buf, end, k)
    requires value == cur + p.text
    ensures ScanLine(buf, pos, cur, acc) == ScanLine(buf, k, [], Tokenizer.Flush(acc, value))
  {
    if p.Plain? {
      PlainEnds(buf, pos, end, k, p.text, cur, value, acc);
    } else {
      QuotedEnds(buf, pos, end, k, p.quote, p.text, cur, value, acc);
    }
  }

  /** A word of one piece. */
  lemma WordOne(ps: seq<Piece>)
    requires |ps| == 1
    ensures RenderWord(ps) == RenderPiece(ps[0]) && WordValue(ps) == ps[0].text
  {
    assert RenderWord(ps[1..]) == [] && WordValue(ps[1..]) == [];
  }

  /** The last piece of a word emits the pending token. */
  lemma WordLast(buf: string, pos: nat, end: nat, k: nat, ps: seq<Piece>, cur: string, value: string,
                 acc: seq<string>)
    requires ValidWord(ps) && |ps| == 1 && At(buf, pos, RenderWord(ps))
    requires end == pos + |RenderWord(ps)| && WordEndsAt(buf, end, k)
    requires value == cur + WordValue(ps)
    ensures ScanLine(buf, pos, cur, acc) == ScanLine(buf, k, [], Tokenizer.Flush(acc, value))
  {
    WordOne(ps);
    PieceEnds(buf, pos, end, k, ps[0], cur, value, acc);
  }

  /** The value of a word of several pieces: its first piece's text, then
      the rest's. */
  lemma WordSplit(ps: seq<Piece>)
    requires |ps| > 1
    ensures WordValue(ps) == ps[0].text + WordValue(ps[1..])
  {
  }

  /** Reading one word, which ends at `end`: the pending token grows by the
      word's value and is emitted, and the whitespace after it, up to `k`,
      is consumed. */
  lemma {:induction false} ScanWord(buf: string, pos: nat, end: nat, k: nat, ps: seq<Piece>, cur: string,
                                    value: string, acc: seq<string>)
    requires ValidWord(ps) && At(buf, pos, RenderWord(ps))
    requires end == pos + |RenderWord(ps)| && WordEndsAt(buf, end, k)
    requires value == cur + WordValue(ps)
    ensures ScanLine(buf, pos, cur, acc) == ScanLine(buf, k, [], Tokenizer.Flush(acc, value))
    decreases |ps|
  {
    if |ps| > 1 {
      var next := pos + |RenderPiece(ps[0])|;
      var grown := cur + ps[0].text;
      WordHeadLayout(buf, pos, next, ps);
      WordSplit(ps);
      Seqs.Assoc(cur, ps[0].text, WordValue(ps[1..]));
      PieceExtends(buf, pos, next, ps[0], cur, grown, acc);
      ScanWord(buf, next, end, k, ps[1..], grown, value, acc);
    } else {
      WordLast(buf, pos, end, k, ps, cur, value, acc);
    }
  }

  /** Reading one word with no token pending emits its tokens. */
  lemma ScanWordTokens(buf: string, pos: nat, end: nat, k: nat, ps: seq<Piece>, acc: seq<string>,
                       acc': seq<string>)
    requires ValidWord(ps) && At(buf, pos, RenderWord(ps))
    requires end == pos + |RenderWord(ps)| && WordEndsAt(buf, end, k)
    requires acc' == acc + WordTokens(ps)
    ensures ScanLine(buf, pos, [], acc) == ScanLine(buf, k, [], acc')
  {
    assert WordValue(ps) == [] + WordValue(ps);
    ScanWord(buf, pos, end, k, ps, [], WordValue(ps), acc);
    assert Tokenizer.Flush(acc, WordValue(ps)) == acc';
  }

  /** A line of several words: the first word, ending at `e`, its gap, and
      the rest of the line from `k`. */
  lemma LineLayout(buf: string, pos: nat, e: nat, k: nat, ws: seq<seq<Piece>>, gaps: seq<string>)
    requires ValidWords(ws) && Gaps(gaps) && |ws| > 1 && |gaps| == |ws| - 1
    requires At(buf, pos, RenderLine(ws, gaps))
    requires e == pos + |RenderWord(ws[0])| && k == e + |gaps[0]|
    ensures At(buf, pos, RenderWord(ws[0])) && WordEndsAt(buf, e, k)
    ensures At(buf, k, RenderLine(ws[1..], gaps[1..]))
    ensures k + |RenderLine(ws[1..], gaps[1..])| == pos + |RenderLine(ws, gaps)|
    ensures ValidWord(ws[0]) && ValidWords(ws[1..]) && Gaps(gaps[1..])
  {
    var r := RenderWord(ws[0]);
    var g := gaps[0];
    var rest := RenderLine(ws[1..], gaps[1..]);
    assert RenderLine(ws, gaps) == r + g + rest;
    AtParts(buf, pos, e, k, r, g, rest);
    LineFirstChar(ws[1..], gaps[1..]);
    GapEnds(buf, e, k, g, rest);
  }

  /** A gap followed by a word ends the word before it. */
  lemma GapEnds(buf: string, e: nat, k: nat, g: string, rest: string)
    requires Gap(g) && At(buf, e, g) && k == e + |g|
    requires At(buf, k, rest) && rest != [] && !IsWhitespace(rest[0])
    ensures WordEndsAt(buf, e, k)
  {
    AtChar(buf, k, rest, 0);
    Tokenizer.SkipRun(buf, e, g);
  }

  /** The values of a line of several words are the first word's tokens
      followed by the rest's. */
  lemma LineStep(acc: seq<string>, acc': seq<string>, out: seq<string>, ws: seq<seq<Piece>>)
    requires |ws| > 1
    requires acc' == acc + WordTokens(ws[0]) && out == acc + LineValues(ws)
    ensures out == acc' + LineValues(ws[1..])
  {
    var t := WordTokens(ws[0]);
    var r := LineValues(ws[1..]);
    assert LineValues(ws) == t + r;
    Seqs.Assoc(acc, t, r);
  }

  /** The last word of a line, followed by whitespace up to `stop`, emits
      its tokens and the scan goes on at `stop`. */
  lemma ScanLastWord(buf: string, pos: nat, last: nat, stop: nat, ws: seq<seq<Piece>>, gaps: seq<string>,
                     acc: seq<string>, out: seq<string>)
    requires |ws| == 1 && gaps == [] && ValidWord(ws[0]) && At(buf, pos, RenderLine(ws, gaps))
    requires last == pos + |RenderLine(ws, gaps)| && WordEndsAt(buf, last, stop)
    requires out == acc + LineValues(ws)
    ensures ScanLine(buf, pos, [], acc) == ScanLine(buf, stop, [], out)
  {
    var w := ws[0];
    assert LineValues(ws) == WordTokens(w) + LineValues([]);
    assert out == acc + WordTokens(w);
    ScanWordTokens(buf, pos, last, stop, w, acc, out);
  }

  /** Scanning a rendered line followed by whitespace up to `stop` emits its
      non-empty values after `acc`, which gives `out`, and goes on at
      `stop`. */
  lemma {:induction false} ScanWords(buf: string, pos: nat, last: nat, stop: nat, ws: seq<seq<Piece>>,
                                     gaps: seq<string>, acc: seq<string>, out: seq<string>)
    requires ValidWords(ws) && Gaps(gaps) && |gaps| == |ws| - 1 && At(buf, pos, RenderLine(ws, gaps))
    requires last == pos + |RenderLine(ws, gaps)| && WordEndsAt(buf, last, stop)
    requires out == acc + LineValues(ws)
    ensures ScanLine(buf, pos, [], acc) == ScanLine(buf, stop, [], out)
    decreases |ws|, 0
  {
    if |ws| == 1 {
      ScanLastWord(buf, pos, last, stop, ws, gaps, acc, out);
    } else {
      var e := pos + |RenderWord(ws[0])|;
      var k := e + |gaps[0]|;
      var acc' := acc + WordTokens(ws[0]);
      LineLayout(buf, pos, e, k, ws, gaps);
      LineStep(acc, acc', out, ws);
      ScanWordsStep(buf, pos, e, k, last, stop, ws[0], ws[1..], gaps[1..], acc, acc', out);
    }
  }

  /** A word that is not the last of its line, ending at `e`, the gap after
      it up to `k`, and the rest of the line by induction. */
  lemma {:induction false} ScanWordsStep(buf: string, pos: nat, e: nat, k: nat, last: nat, stop: nat,
                                         w: seq<Piece>, rest: seq<seq<Piece>>, gaps: seq<string>,
                                         acc: seq<string>, acc': seq<string>, out: seq<string>)
    requires ValidWord(w) && At(buf, pos, RenderWord(w))
    requires e == pos + |RenderWord(w)| && WordEndsAt(buf, e, k)
    requires ValidWords(rest) && Gaps(gaps) && |gaps| == |rest| - 1 && At(buf, k, RenderLine(rest, gaps))
    requires last == k + |RenderLine(rest, gaps)| && WordEndsAt(buf, last, stop)
    requires acc' == acc + WordTokens(w) && out == acc' + LineValues(rest)
    ensures ScanLine(buf, pos, [], acc) == ScanLine(buf, stop, [], out)
    decreases |rest|, 1
  {
    ScanWords(buf, k, last, stop, rest, gaps, acc', out);
    ScanWordTokens(buf, pos, e, k, w, acc, acc');
  }

  /** Where the rendered line sits in its buffer, between whitespace. */
  lemma PaddedLayout(buf: string, lead: string, line: string, trail: string, e: nat)
    requires buf == lead + line + trail && AllWhitespace(lead) && AllWhitespace(trail)
    requires e == |lead| + |line|
    ensures At(buf, 0, lead) && At(buf, |lead|, line)
    ensures WordEndsAt(buf, e, |buf|)
  {
    AtWhole(buf);
    AtParts(buf, 0, |lead|, e, lead, line, trail);
    assert e + |trail| == |buf|;
    Tokenizer.SkipRun(buf, e, trail);
    assert WordEndsAt(buf, e, |buf|);
  }

  /** Scanning a rendered line with whitespace before and after it, from
      its start, emits its non-empty values after `acc`, which gives `out`. */
  lemma ScanPadded(buf: string, lead: string, ws: seq<seq<Piece>>, gaps: seq<string>, trail: string,
                   acc: seq<string>, out: seq<string>)
    requires ValidWords(ws) && Gaps(gaps) && |gaps| == |ws| - 1
    requires AllWhitespace(lead) && AllWhitespace(trail)
    requires buf == lead + RenderLine(ws, gaps) + trail && out == acc + LineValues(ws)
    ensures ScanLine(buf, 0, [], acc) == EndOfLine([], out)
  {
    var line := RenderLine(ws, gaps);
    LineFirstChar(ws, gaps);
    var last := |lead| + |line|;
    PaddedLayout(buf, lead, line, trail, last);
    ScanWords(buf, |lead|, last, |buf|, ws, gaps, acc, out);
    if lead != [] {
      AtChar(buf, |lead|, line, 0);
      Tokenizer.SkipRun(buf, 0, lead);
      GapSkip(buf, 0, |lead|, acc);
    }
  }

  /** Reading a rendered line, with any whitespace before and after it (its
      terminator, or none on a last line), gives back its non-empty word
      values, in order: quoted text verbatim, adjacent pieces concatenated,
      and the whitespace nowhere.  The lines after it are never read. */
  lemma ReadRenderedLine(lead: string, ws: seq<seq<Piece>>, gaps: seq<string>, trail: string,
                         more: seq<string>)
    requires ValidWords(ws) && Gaps(gaps) && |gaps| == |ws| - 1
    requires AllWhitespace(lead) && AllWhitespace(trail)
    ensures ReadTokens([lead + RenderLine(ws, gaps) + trail] + more) == Tokens(LineValues(ws))
  {
    var buf := lead + RenderLine(ws, gaps) + trail;
    var lines := [buf] + more;
    var out := LineValues(ws);
    assert lines[0] == buf;
    LineFirstChar(ws, gaps);
    assert out == [] + out;
    ScanPadded(buf, lead, ws, gaps, trail, [], out);
    assert buf[|lead|] == RenderLine(ws, gaps)[0];
    assert Tokenizer.Flush(out, []) == out;
  }

  // ---------------------------------------------------------------------
  // A quote left open at the end of a line

  /** A rendered line, a gap, and a quote that is not closed on its line. */
  function OpenQuoteLine(lead: string, ws: seq<seq<Piece>>, gaps: seq<string>, g: string, q: char,
                         x: string): string
    requires |ws| >= 1 && |gaps| == |ws| - 1
  {
    lead + RenderLine(ws, gaps) + (g + [q] + x)
  }

  /** Where the open quote sits: at `qpos`, with `x` running to the end of
      the line, and the rendered words ending at `last`. */
  lemma OpenQuoteLayout(buf: string, lead: string, line: string, rest: string, g: string, q: char,
                        x: string, last: nat, qpos: nat)
    requires Gap(g) && IsQuote(q)
    requires buf == lead + line + rest && rest == g + [q] + x
    requires last == |lead| + |line| && qpos == last + |g|
    ensures At(buf, 0, lead) && At(buf, |lead|, line) && WordEndsAt(buf, last, qpos)
    ensures qpos < |buf| && buf[qpos] == q && buf[qpos + 1..] == x
  {
    LineThenRest(buf, lead, line, rest, last);
    OpenQuoteTail(buf, last, rest, g, q, x, qpos);
  }

  /** A line between its leading whitespace and the rest of the buffer. */
  lemma LineThenRest(buf: string, lead: string, line: string, rest: string, last: nat)
    requires buf == lead + line + rest && last == |lead| + |line|
    ensures At(buf, 0, lead) && At(buf, |lead|, line) && At(buf, last, rest) && last + |rest| == |buf|
  {
    AtWhole(buf);
    AtParts(buf, 0, |lead|, last, lead, line, rest);
  }

  /** A gap and an open quote running to the end of the buffer. */
  lemma OpenQuoteTail(buf: string, last: nat, rest: string, g: string, q: char, x: string, qpos: nat)
    requires Gap(g) && IsQuote(q) && rest == g + [q] + x && qpos == last + |g|
    requires At(buf, last, rest) && last + |rest| == |buf|
    ensures WordEndsAt(buf, last, qpos)
    ensures qpos < |buf| && buf[qpos] == q && buf[qpos + 1..] == x
  {
    AtParts(buf, last, qpos, qpos + 1, g, [q], x);
    GapEnds(buf, last, qpos, g, [q]);
    QuoteAtEnd(buf, qpos, q, x);
  }

  /** A quote followed by `x` up to the end of the buffer. */
  lemma QuoteAtEnd(buf: string, qpos: nat, q: char, x: string)
    requires At(buf, qpos, [q]) && At(buf, qpos + 1, x) && qpos + 1 + |x| == |buf|
    ensures qpos < |buf| && buf[qpos] == q && buf[qpos + 1..] == x
  {
    AtChar(buf, qpos, [q], 0);
    AtSlice(buf, qpos + 1, x);
    assert buf[qpos + 1..] == buf[qpos + 1..qpos + 1 + |x|];
  }

  /** The whitespace before a rendered line is skipped up to its first
      character. */
  lemma LeadSkipped(buf: string, lead: string, line: string, ws: seq<seq<Piece>>, gaps: seq<string>)
    requires ValidWords(ws) && |gaps| == |ws| - 1 && line == RenderLine(ws, gaps)
    requires AllWhitespace(lead) && At(buf, 0, lead) && At(buf, |lead|, line)
    ensures Tokenizer.SkipWhitespace(buf, 0) == |lead|
  {
    LineFirstChar(ws, gaps);
    AtChar(buf, |lead|, line, 0);
    Tokenizer.SkipRun(buf, 0, lead);
  }

  /** The quote reader at the end of the line: an open quote asks for the
      next line with the rest of the line added to the pending token, and a
      quote as the last character asks for it having added nothing. */
  lemma OpenQuoteAsks(buf: string, qpos: nat, q: char, x: string, cur: string, acc: seq<string>)
    requires qpos < |buf| && buf[qpos] == q && IsQuote(q) && buf[qpos + 1..] == x && q !in x
    ensures ScanLine(buf, qpos, cur, acc) == NewLine(cur + x, acc)
  {
    if x == [] {
      TrailingQuoteDropped(buf, cur, acc);
      assert cur + x == cur;
    } else {
      UnclosedQuoteAsksForLine(buf, qpos, cur, acc);
    }
  }

  /** Scanning a line that ends in an open quote emits the line's words and
      asks for the next line with the quoted text pending. */
  lemma ScanOpenQuote(lead: string, ws: seq<seq<Piece>>, gaps: seq<string>, g: string, q: char, x: string)
    requires ValidWords(ws) && Gaps(gaps) && |gaps| == |ws| - 1 && AllWhitespace(lead) && Gap(g)
    requires IsQuote(q) && q !in x
    ensures ScanLine(OpenQuoteLine(lead, ws, gaps, g, q, x), 0, [], []) == NewLine(x, LineValues(ws))
  {
    var buf := OpenQuoteLine(lead, ws, gaps, g, q, x);
    var line := RenderLine(ws, gaps);
    var last := |lead| + |line|;
    var qpos := last + |g|;
    var out := LineValues(ws);
    OpenQuoteLayout(buf, lead, line, g + [q] + x, g, q, x, last, qpos);
    LeadSkipped(buf, lead, line, ws, gaps);
    assert out == [] + out;
    ScanWords(buf, |lead|, last, qpos, ws, gaps, [], out);
    OpenQuoteAsks(buf, qpos, q, x, [], out);
    assert [] + x == x;
    if lead != [] {
      GapSkip(buf, 0, |lead|, []);
    }
  }

  /** The next line, starting with a word, is scanned with the quoted text
      still pending: it becomes the front of that word's value. */
  lemma ScanResumedWord(buf: string, ws: seq<seq<Piece>>, gaps: seq<string>, trail: string, x: string,
                        acc: seq<string>, acc': seq<string>, out: seq<string>)
    requires ValidWords(ws) && Gaps(gaps) && |gaps| == |ws| - 1 && AllWhitespace(trail)
    requires buf == RenderLine(ws, gaps) + trail
    requires acc' == Tokenizer.Flush(acc, x + WordValue(ws[0])) && out == acc' + LineValues(ws[1..])
    ensures ScanLine(buf, 0, x, acc) == EndOfLine([], out)
  {
    var line := RenderLine(ws, gaps);
    var last := |line|;
    assert buf == [] + line + trail;
    PaddedLayout(buf, [], line, trail, last);
    if |ws| == 1 {
      assert line == RenderWord(ws[0]);
      ScanWord(buf, 0, last, |buf|, ws[0], x, x + WordValue(ws[0]), acc);
      assert LineValues(ws[1..]) == [];
      assert out == acc';
    } else {
      var e := |RenderWord(ws[0])|;
      var k := e + |gaps[0]|;
      LineLayout(buf, 0, e, k, ws, gaps);
      ScanWord(buf, 0, e, k, ws[0], x, x + WordValue(ws[0]), acc);
      ScanWords(buf, k, last, |buf|, ws[1..], gaps[1..], acc', out);
    }
  }

  /** The loop after the first line asked for the next one: the second
      line is scanned from its start, after the pending token is emitted if
      that line starts with whitespace. */
  lemma RunSecondLine(lines: seq<string>, first: string, second: string, more: seq<string>, x: string,
                      acc: seq<string>, cur: string, acc': seq<string>, e: LineEnd)
    requires lines == [first, second] + more && first != [] && second != []
    requires ScanLine(first, 0, [], []) == NewLine(x, acc)
    requires if IsWhitespace(second[0]) then cur == [] && acc' == Tokenizer.Flush(acc, x)
             else cur == x && acc' == acc
    requires e == ScanLine(second, 0, cur, acc')
    ensures e.EndOfLine? && e.cur == [] ==> ReadTokens(lines) == Tokens(e.acc)
    ensures e.NewLine? && more == [] ==> ReadTokens(lines) == Panic
  {
    assert lines[0] == first && lines[1] == second;
    assert ReadTokens(lines) == Run(lines, 0, [], []);
    if IsWhitespace(second[0]) && x == [] {
      assert cur == x && acc' == acc;
    }
    assert Run(lines, 0, [], []) == Run(lines, 1, cur, acc');
    match e
    case EndOfLine(c, a) =>
      assert Run(lines, 1, cur, acc') == Tokens(Tokenizer.Flush(a, c));
      assert c == [] ==> Tokenizer.Flush(a, c) == a;
    case NewLine(c, a) =>
      if more == [] {
        assert Run(lines, 1, cur, acc') == Panic;
      }
    case NoProgress =>
  }

  /** Emitting a pending token after `acc` adds it at the end. */
  lemma FlushAfter(acc: seq<string>, t: string)
    ensures Tokenizer.Flush(acc, t) == acc + Tokenizer.Flush([], t)
  {
  }

  /** A quote left open at the end of a line is not carried to the next
      line.  The next line is read from its start as ordinary text; when it
      starts with a word, the text after the quote is glued to that word,
      whatever the word is, and the rest of the line is split into words as
      usual.  Lines after it are never read. */
  lemma ResumeGlued(lead: string, ws: seq<seq<Piece>>, gaps: seq<string>, g: string, q: char, x: string,
                    ws2: seq<seq<Piece>>, gaps2: seq<string>, trail2: string, more: seq<string>)
    requires ValidWords(ws) && Gaps(gaps) && |gaps| == |ws| - 1 && AllWhitespace(lead) && Gap(g)
    requires IsQuote(q) && q !in x
    requires ValidWords(ws2) && Gaps(gaps2) && |gaps2| == |ws2| - 1 && AllWhitespace(trail2)
    ensures ReadTokens([OpenQuoteLine(lead, ws, gaps, g, q, x), RenderLine(ws2, gaps2) + trail2] + more)
         == Tokens(LineValues(ws) + Tokenizer.Flush([], x + WordValue(ws2[0])) + LineValues(ws2[1..]))
  {
    var first := OpenQuoteLine(lead, ws, gaps, g, q, x);
    var second := RenderLine(ws2, gaps2) + trail2;
    var acc := LineValues(ws);
    var acc' := Tokenizer.Flush(acc, x + WordValue(ws2[0]));
    var out := acc' + LineValues(ws2[1..]);
    FlushAfter(acc, x + WordValue(ws2[0]));
    ScanOpenQuote(lead, ws, gaps, g, q, x);
    LineFirstChar(ws2, gaps2);
    assert second[0] == RenderLine(ws2, gaps2)[0];
    ScanResumedWord(second, ws2, gaps2, trail2, x, acc, acc', out);
    RunSecondLine([first, second] + more, first, second, more, x, acc, x, acc, EndOfLine([], out));
  }

  /** When the next line starts with whitespace, the text after the open
      quote is a token of its own, and the next line is read as a line of
      its own. */
  lemma ResumeSeparated(lead: string, ws: seq<seq<Piece>>, gaps: seq<string>, g: string, q: char, x: string,
                        lead2: string, ws2: seq<seq<Piece>>, gaps2: seq<string>, trail2: string,
                        more: seq<string>)
    requires ValidWords(ws) && Gaps(gaps) && |gaps| == |ws| - 1 && AllWhitespace(lead) && Gap(g)
    requires IsQuote(q) && q !in x
    requires Gap(lead2) && ValidWords(ws2) && Gaps(gaps2) && |gaps2| == |ws2| - 1 && AllWhitespace(trail2)
    ensures ReadTokens([OpenQuoteLine(lead, ws, gaps, g, q, x), lead2 + RenderLine(ws2, gaps2) + trail2] + more)
         == Tokens(LineValues(ws) + Tokenizer.Flush([], x) + LineValues(ws2))
  {
    var first := OpenQuoteLine(lead, ws, gaps, g, q, x);
    var second := lead2 + RenderLine(ws2, gaps2) + trail2;
    var acc := LineValues(ws);
    var acc' := Tokenizer.Flush(acc, x);
    var out := acc' + LineValues(ws2);
    FlushAfter(acc, x);
    ScanOpenQuote(lead, ws, gaps, g, q, x);
    assert second[0] == lead2[0];
    ScanPadded(second, lead2, ws2, gaps2, trail2, acc', out);
    RunSecondLine([first, second] + more, first, second, more, x, acc, [], acc', EndOfLine([], out));
  }

  /** A line made of a plain run and a quote that is not closed asks for
      another line, whatever token is pending. */
  lemma ScanReopened(buf: string, y: string, q: char, z: string, x: string, acc: seq<string>)
    requires buf == y + [q] + z && AllPlain(y) && IsQuote(q) && q !in z
    ensures buf != [] && !IsWhitespace(buf[0])
    ensures ScanLine(buf, 0, x, acc).NewLine?
  {
    var qpos := |y|;
    AtWhole(buf);
    AtParts(buf, 0, qpos, qpos + 1, y, [q], z);
    QuoteAtEnd(buf, qpos, q, z);
    if y == [] {
      OpenQuoteAsks(buf, qpos, q, z, x, acc);
    } else {
      AtChar(buf, 0, y, 0);
      OpenQuoteAsks(buf, qpos, q, z, x + y, acc);
      PlainContinues(buf, 0, qpos, y, x, x + y, acc);
    }
  }

  /** The quote that would close the open one on the next line opens a new
      quote instead, which asks for yet another line; at the end of input
      the reader panics. */
  lemma ClosingQuoteReopens(lead: string, ws: seq<seq<Piece>>, gaps: seq<string>, g: string, q: char,
                            x: string, y: string, z: string)
    requires ValidWords(ws) && Gaps(gaps) && |gaps| == |ws| - 1 && AllWhitespace(lead) && Gap(g)
    requires IsQuote(q) && q !in x
    requires AllPlain(y) && q !in z
    ensures ReadTokens([OpenQuoteLine(lead, ws, gaps, g, q, x), y + [q] + z]) == Panic
  {
    var first := OpenQuoteLine(lead, ws, gaps, g, q, x);
    var second := y + [q] + z;
    var lines := [first, second];
    var acc := LineValues(ws);
    ScanOpenQuote(lead, ws, gaps, g, q, x);
    ScanReopened(second, y, q, z, x, acc);
    assert lines == [first, second] + [];
    RunSecondLine(lines, first, second, [], x, acc, x, acc, ScanLine(second, 0, x, acc));
  }

  /** A line with nothing before or after it, and then end of input. */
  lemma Unpadded(line: string)
    ensures [[] + line + []] + [""] == [line, ""]
  {
    assert [] + line + [] == line;
  }

  /** The words and gaps of `echo shell   hello`. */
  const SpaceRunWords: seq<seq<Piece>> := [[Plain("echo")], [Plain("shell")], [Plain("hello")]]
  const SpaceRunGaps: seq<string> := [" ", "   "]

  lemma SpaceRunValid()
    ensures ValidWords(SpaceRunWords) && Gaps(SpaceRunGaps) && |SpaceRunGaps| == |SpaceRunWords| - 1
  {
    var ws := SpaceRunWords;
    assert ws[1..] == [ws[1], ws[2]] && ws[1..][1..] == [ws[2]];
  }

  lemma SpaceRunRender()
    ensures RenderLine(SpaceRunWords, SpaceRunGaps) == "echo shell   hello"
  {
    var ws, gaps := SpaceRunWords, SpaceRunGaps;
    var w0, w1, w2 := ws[0], ws[1], ws[2];
    WordOne(w0);
    WordOne(w1);
    WordOne(w2);
    assert ws[1..] == [w1, w2] && ws[1..][1..] == [w2];
    assert gaps[1..] == ["   "] && gaps[1..][1..] == [];
    var tail := RenderLine([w2], []);
    assert tail == "hello";
    var rest := RenderLine([w1, w2], ["   "]);
    assert rest == "shell" + "   " + tail;
    assert RenderLine(ws, gaps) == "echo" + " " + rest;
    SpaceRunText();
  }

  lemma SpaceRunText()
    ensures "echo" + " " + ("shell" + "   " + "hello") == "echo shell   hello"
  {
  }

  lemma SpaceRunValues()
    ensures LineValues(SpaceRunWords) == ["echo", "shell", "hello"]
  {
    var ws := SpaceRunWords;
    var w0, w1, w2 := ws[0], ws[1], ws[2];
    WordOne(w0);
    WordOne(w1);
    WordOne(w2);
    assert ws[1..] == [w1, w2] && ws[1..][1..] == [w2];
    assert LineValues([w2]) == ["hello"];
    assert LineValues([w1, w2]) == ["shell"] + ["hello"];
    assert LineValues(ws) == ["echo"] + (["shell"] + ["hello"]);
  }

  /** A test case of `parse_input`: a run of spaces between bare words
      separates them like one space. */
  lemma SpaceRunSeparates(input: string)
    requires input == "echo shell   hello"
    ensures ReadTokens([input, ""]) == Tokens(["echo", "shell", "hello"])
  {
    SpaceRunValid();
    SpaceRunRender();
    SpaceRunValues();
    ReadRenderedLine([], SpaceRunWords, SpaceRunGaps, [], [""]);
    Unpadded(RenderLine(SpaceRunWords, SpaceRunGaps));
  }

  /** The words of `echo 'shell   hello'`. */
  const QuotedRunWords: seq<seq<Piece>> := [[Plain("echo")], [Quoted('\'', "shell   hello")]]

  lemma QuotedRunValid()
    ensures ValidWords(QuotedRunWords) && Gaps([" "])
  {
    var ws := QuotedRunWords;
    assert ws[1..] == [ws[1]];
  }

  lemma QuotedRunRender()
    ensures RenderLine(QuotedRunWords, [" "]) == "echo 'shell   hello'"
  {
    var ws := QuotedRunWords;
    var w0, w1 := ws[0], ws[1];
    WordOne(w0);
    WordOne(w1);
    assert ws[1..] == [w1];
    var rest := RenderLine([w1], []);
    assert rest == "'" + "shell   hello" + "'";
    assert RenderLine(ws, [" "]) == "echo" + " " + rest;
    QuotedRunText();
  }

  lemma QuotedRunText()
    ensures "echo" + " " + ("'" + "shell   hello" + "'") == "echo 'shell   hello'"
  {
  }

  lemma QuotedRunValues()
    ensures LineValues(QuotedRunWords) == ["echo", "shell   hello"]
  {
    var ws := QuotedRunWords;
    var w0, w1 := ws[0], ws[1];
    WordOne(w0);
    WordOne(w1);
    assert ws[1..] == [w1];
    assert LineValues([w1]) == ["shell   hello"];
    assert LineValues(ws) == ["echo"] + ["shell   hello"];
  }

  /** A test case of `parse_input`: a run of spaces inside single quotes is
      kept. */
  lemma QuotedSpaceRunKept(input: string)
    requires input == "echo 'shell   hello'"
    ensures ReadTokens([input, ""]) == Tokens(["echo", "shell   hello"])
  {
    QuotedRunValid();
    QuotedRunRender();
    QuotedRunValues();
    ReadRenderedLine([], QuotedRunWords, [" "], [], [""]);
    Unpadded(RenderLine(QuotedRunWords, [" "]));
  }
}
