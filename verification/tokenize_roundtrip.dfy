/** A reference description of the lines `tokenize` is meant to read, and the
    proof that it reads them as intended.

    A line is a sequence of groups joined by runs of whitespace, with optional
    whitespace before and after it.  A group is either a separator character
    or a word made of pieces written with no space between them: a bare run,
    a single-quoted text, a double-quoted text (with `\` and `"` escaped) or a
    backslash-escaped character.  Two groups may also be written with nothing
    between them where that cannot join them: after a separator, and between a
    word ending in a bare run and a separator.  The value of a word is the
    concatenation of its pieces' values; tokenizing the rendered line yields
    the non-empty group values in order. */
module TokenizeRoundTrip {
  import opened Results
  import opened Text
  import opened Tokenizer
  import Seqs

  datatype Piece =
    | Bare(text: string)
    | SingleQuoted(text: string)
    | DoubleQuoted(text: string)
    | Escaped(ch: char)

  datatype Group = Word(pieces: seq<Piece>) | Separator(sep: char)

  /** Backslash-escape the two characters double quotes give meaning to. */
  function EscapeForDoubleQuote(s: string): (r: string)
    ensures |r| >= |s|
  {
    if s == [] then []
    else (if s[0] == '\\' || s[0] == '"' then ['\\', s[0]] else [s[0]]) + EscapeForDoubleQuote(s[1..])
  }

  function RenderPiece(p: Piece): (r: string)
    ensures r != []
  {
    match p
    case Bare(t) => if t == [] then " " else t
    case SingleQuoted(t) => ['\''] + t + ['\'']
    case DoubleQuoted(t) => ['"'] + EscapeForDoubleQuote(t) + ['"']
    case Escaped(c) => ['\\', c]
  }

  /** The text a piece stands for. */
  function PieceValue(p: Piece): string {
    match p
    case Bare(t) => t
    case SingleQuoted(t) => t
    case DoubleQuoted(t) => t
    case Escaped(c) => if c == '\n' then [] else [c]
  }

  predicate ValidPiece(p: Piece) {
    match p
    case Bare(t) => t != [] && AllBare(t)
    case SingleQuoted(t) => '\'' !in t
    case DoubleQuoted(_) => true
    case Escaped(_) => true
  }

  /** Pieces of one word: at least one, each valid, and no two bare runs in a
      row (they would read as one run). */
  predicate ValidWord(ps: seq<Piece>) {
    && |ps| >= 1
    && ValidPiece(ps[0])
    && (|ps| > 1 ==> !(ps[0].Bare? && ps[1].Bare?) && ValidWord(ps[1..]))
  }

  predicate ValidGroup(g: Group) {
    match g
    case Word(ps) => ValidWord(ps)
    case Separator(c) => IsSeparator(c)
  }

  function RenderPieces(ps: seq<Piece>): string {
    if ps == [] then [] else RenderPiece(ps[0]) + RenderPieces(ps[1..])
  }

  function WordValue(ps: seq<Piece>): string {
    if ps == [] then [] else PieceValue(ps[0]) + WordValue(ps[1..])
  }

  function RenderGroup(g: Group): string {
    match g
    case Word(ps) => RenderPieces(ps)
    case Separator(c) => [c]
  }

  function GroupValue(g: Group): string {
    match g
    case Word(ps) => WordValue(ps)
    case Separator(c) => [c]
  }

  /** A word whose last piece is a bare run. */
  predicate EndsBare(g: Group) {
    g.Word? && g.pieces != [] && g.pieces[|g.pieces| - 1].Bare?
  }

  /** What may join group `g` to the group `h` after it: whitespace, or
      nothing where `g` is a separator or `h` is a separator after a bare run. */
  predicate ValidJoint(g: Group, j: string, h: Group) {
    AllWhitespace(j) && (j == [] ==> g.Separator? || (h.Separator? && EndsBare(g)))
  }

  /** Valid groups `gs` and the joints `js` between them. */
  predicate Joined(gs: seq<Group>, js: seq<string>) {
    && |gs| >= 1 && |js| == |gs| - 1
    && ValidGroup(gs[0])
    && (|gs| > 1 ==> ValidJoint(gs[0], js[0], gs[1]) && Joined(gs[1..], js[1..]))
  }

  /** Groups joined by the given joints. */
  function RenderLine(gs: seq<Group>, js: seq<string>): string
    requires |gs| >= 1 && |js| == |gs| - 1
  {
    if |gs| == 1 then RenderGroup(gs[0]) else RenderGroup(gs[0]) + js[0] + RenderLine(gs[1..], js[1..])
  }

  /** The tokens a group stands for: its value, unless that is empty. */
  function GroupTokens(g: Group): seq<string> {
    if GroupValue(g) != [] then [GroupValue(g)] else []
  }

  /** The non-empty group values, in order. */
  function LineValues(gs: seq<Group>): seq<string> {
    if gs == [] then [] else GroupTokens(gs[0]) + LineValues(gs[1..])
  }

  /** A line that trimming leaves alone: its last character is not
      whitespace (its first never is). */
  predicate ValidLine(gs: seq<Group>, js: seq<string>) {
    && Joined(gs, js)
    && var r := RenderLine(gs, js);
       |r| > 0 && !Text.IsWhitespace(r[|r| - 1])
  }

  /** The end `e` of a word whose last piece is bare exactly when `bare`, and
      the whitespace after it up to `k`; only a separator after a bare run,
      or the end of the buffer, may follow it directly. */
  predicate WordBoundary(buf: string, e: nat, k: nat, bare: bool) {
    && e <= |buf|
    && SkipWhitespace(buf, e) == k
    && (k == e && e < |buf| ==> bare && IsSeparator(buf[e]))
  }

  /** The end `e` of group `g` and the whitespace after it up to `k`. */
  predicate GroupBoundary(buf: string, e: nat, k: nat, g: Group) {
    match g
    case Word(ps) => WordBoundary(buf, e, k, ps != [] && ps[|ps| - 1].Bare?)
    case Separator(_) => e <= |buf| && SkipWhitespace(buf, e) == k
  }

  // ---------------------------------------------------------------------
  // First characters

  lemma PieceFirstChar(p: Piece)
    requires ValidPiece(p)
    ensures !Text.IsWhitespace(RenderPiece(p)[0]) && !IsSeparator(RenderPiece(p)[0])
    ensures !p.Bare? ==> IsSpecial(RenderPiece(p)[0])
    ensures p.Bare? ==> IsBare(RenderPiece(p)[0])
  {
  }

  lemma WordFirstChar(ps: seq<Piece>)
    requires ValidWord(ps)
    ensures RenderPieces(ps) != [] && RenderPieces(ps)[0] == RenderPiece(ps[0])[0]
  {
  }

  lemma LineFirstChar(gs: seq<Group>, js: seq<string>)
    requires Joined(gs, js)
    ensures RenderLine(gs, js) != []
    ensures !Text.IsWhitespace(RenderLine(gs, js)[0])
    ensures gs[0].Separator? ==> RenderLine(gs, js)[0] == gs[0].sep
  {
    match gs[0]
    case Word(ps) =>
      WordFirstChar(ps);
      PieceFirstChar(ps[0]);
    case Separator(c) =>
  }

  // ---------------------------------------------------------------------
  // The fragment readers on rendered pieces

  /** Position of the first `c` when the prefix before it has none. */
  lemma IndexOfAt(s: string, c: char, k: nat)
    requires k < |s| && s[k] == c && c !in s[..k]
    ensures Text.IndexOf(s, c) == k
  {
  }

  /** The double-quote reader undoes `EscapeForDoubleQuote`, stopping at
      `close`. */
  lemma {:induction false} DoubleQuoteBodyEscaped(buf: string, j: nat, close: nat, w: string)
    requires At(buf, j, EscapeForDoubleQuote(w) + ['"'])
    requires close == j + |EscapeForDoubleQuote(w)|
    ensures DoubleQuoteBody(buf, j) == Some((w, close))
    decreases |w|
  {
    var e := EscapeForDoubleQuote(w);
    if w == [] {
      AtChar(buf, j, e + ['"'], 0);
    } else {
      var rest := EscapeForDoubleQuote(w[1..]);
      if w[0] == '\\' || w[0] == '"' {
        var h := ['\\', w[0]];
        assert e + ['"'] == h + (rest + ['"']);
        AtConcat(buf, j, h, rest + ['"']);
        AtChar(buf, j, h, 0);
        AtChar(buf, j, h, 1);
        DoubleQuoteBodyEscaped(buf, j + 2, close, w[1..]);
        EscapedQuoteStep(buf, j, w[0], w[1..], close);
      } else {
        var h := [w[0]];
        assert e + ['"'] == h + (rest + ['"']);
        AtConcat(buf, j, h, rest + ['"']);
        AtChar(buf, j, h, 0);
        DoubleQuoteBodyEscaped(buf, j + 1, close, w[1..]);
        PlainQuoteStep(buf, j, w[0], w[1..], close);
      }
      assert [w[0]] + w[1..] == w;
    }
  }

  /** Inside double quotes an escaped backslash or quote stands for itself. */
  lemma EscapedQuoteStep(buf: string, j: nat, c: char, t: string, close: nat)
    requires j + 1 < |buf| && buf[j] == '\\' && buf[j + 1] == c && (c == '\\' || c == '"')
    requires DoubleQuoteBody(buf, j + 2) == Some((t, close))
    ensures DoubleQuoteBody(buf, j) == Some(([c] + t, close))
  {
    assert ParseBackslash(buf, j, true).part == [c];
  }

  /** Inside double quotes any other character stands for itself. */
  lemma PlainQuoteStep(buf: string, j: nat, c: char, t: string, close: nat)
    requires j < |buf| && buf[j] == c && c != '\\' && c != '"'
    requires DoubleQuoteBody(buf, j + 1) == Some((t, close))
    ensures DoubleQuoteBody(buf, j) == Some(([c] + t, close))
  {
  }

  lemma SingleQuoteLayout(buf: string, pos: nat, t: string)
    requires At(buf, pos, ['\''] + t + ['\''])
    ensures pos + 1 + |t| < |buf|
    ensures buf[pos] == '\'' && buf[pos + 1 + |t|] == '\''
    ensures buf[pos + 1..pos + 1 + |t|] == t
  {
    assert ['\''] + t + ['\''] == ['\''] + (t + ['\'']);
    AtConcat(buf, pos, ['\''], t + ['\'']);
    AtConcat(buf, pos + 1, t, ['\'']);
    AtChar(buf, pos, ['\''], 0);
    AtChar(buf, pos + 1 + |t|, ['\''], 0);
    AtSlice(buf, pos + 1, t);
  }

  /** The single-quote reader stops at the first closing quote. */
  lemma SingleQuoteReads(buf: string, pos: nat, t: string)
    requires '\'' !in t
    requires pos + 1 + |t| < |buf|
    requires buf[pos] == '\'' && buf[pos + 1 + |t|] == '\''
    requires buf[pos + 1..pos + 1 + |t|] == t
    ensures ParseSingleQuote(buf, pos) == Fragment(StatusAfterQuote(buf, pos + 1 + |t|), t, |t| + 2)
  {
    var f := ParseSingleQuote(buf, pos);
    if |f.part| < |t| {
      assert false;
    } else if |f.part| > |t| {
      assert false;
    }
  }

  lemma SingleQuotedFragment(buf: string, pos: nat, t: string)
    requires '\'' !in t
    requires At(buf, pos, ['\''] + t + ['\''])
    ensures Step(buf, pos) == Some(Fragment(StatusAfterQuote(buf, pos + 1 + |t|), t, |t| + 2))
  {
    SingleQuoteLayout(buf, pos, t);
    SingleQuoteReads(buf, pos, t);
  }

  lemma DoubleQuotedFragment(buf: string, pos: nat, t: string)
    requires At(buf, pos, ['"'] + EscapeForDoubleQuote(t) + ['"'])
    ensures var close := pos + 1 + |EscapeForDoubleQuote(t)|;
      Step(buf, pos) == Some(Fragment(StatusAfterQuote(buf, close), t, close - pos + 1))
  {
    var e := EscapeForDoubleQuote(t);
    assert ['"'] + e + ['"'] == ['"'] + (e + ['"']);
    AtConcat(buf, pos, ['"'], e + ['"']);
    AtChar(buf, pos, ['"'], 0);
    AtChar(buf, pos + 1, e + ['"'], |e|);
    DoubleQuoteBodyEscaped(buf, pos + 1, pos + 1 + |e|, t);
  }

  /** What the reader selected by a quoted or escaped piece's first character
      returns: the piece's value, having consumed the piece, and the token
      ends exactly when whitespace or the end of the line follows. */
  lemma PieceFragment(buf: string, pos: nat, p: Piece)
    requires ValidPiece(p) && !p.Bare? && At(buf, pos, RenderPiece(p))
    ensures var n := |RenderPiece(p)|;
      && pos + n <= |buf|
      && !IsSeparator(buf[pos])
      && Step(buf, pos).Some?
      && Step(buf, pos).value.part == PieceValue(p)
      && Step(buf, pos).value.consumed == n
      && (Step(buf, pos).value.status == Finish <==>
            pos + n == |buf| || Text.IsWhitespace(buf[pos + n]))
  {
    AtChar(buf, pos, RenderPiece(p), 0);
    match p
    case SingleQuoted(t) => SingleQuotedFragment(buf, pos, t);
    case DoubleQuoted(t) => DoubleQuotedFragment(buf, pos, t);
    case Escaped(c) => AtChar(buf, pos, RenderPiece(p), 1);
  }

  /** A bare run is read to its end when no bare character follows it. */
  lemma {:induction false} ScanBareRun(buf: string, pos: nat, t: string)
    requires At(buf, pos, t) && AllBare(t)
    requires pos + |t| < |buf| ==> !IsBare(buf[pos + |t|])
    ensures ScanBare(buf, pos) == pos + |t|
    decreases |t|
  {
    AtSlice(buf, pos, t);
    if t != [] {
      ScanBareRun(buf, pos + 1, t[1..]);
    }
  }

  /** The bare-word reader on a bare run ending at `e`: no whitespace to
      skip and the run read to its end. */
  lemma NativeRun(buf: string, pos: nat, e: nat, t: string)
    requires t != [] && AllBare(t) && At(buf, pos, t) && e == pos + |t|
    requires e < |buf| ==> !IsBare(buf[e])
    ensures e <= |buf| && IsBare(buf[pos])
    ensures SkipWhitespace(buf, pos) == pos && ScanBare(buf, pos) == e && buf[pos..e] == t
  {
    AtChar(buf, pos, t, 0);
    AtSlice(buf, pos, t);
    ScanBareRun(buf, pos, t);
  }

  /** The bare-word reader on a bare run followed by a quote or backslash. */
  lemma BareFragment(buf: string, pos: nat, t: string)
    requires t != [] && AllBare(t) && At(buf, pos, t)
    requires pos + |t| < |buf| && IsSpecial(buf[pos + |t|])
    ensures !IsSeparator(buf[pos]) && Step(buf, pos) == Some(Fragment(Continue, t, |t|))
  {
    NativeRun(buf, pos, pos + |t|, t);
  }

  /** What follows a word at its end `e`: whitespace (and then `k` lies
      beyond it), a separator after a bare run, or nothing. */
  lemma BoundaryChar(buf: string, e: nat, k: nat, bare: bool)
    requires WordBoundary(buf, e, k, bare)
    ensures e < |buf| ==> Text.IsWhitespace(buf[e]) || (bare && IsSeparator(buf[e]))
    ensures e < |buf| && Text.IsWhitespace(buf[e]) ==> e < k
    ensures !bare ==> (e == |buf| || Text.IsWhitespace(buf[e]))
  {
  }

  /** The bare-word reader on a bare run that ends its word at `end`: the
      run, and the whitespace after it up to `k`. */
  lemma BareEndFragment(buf: string, pos: nat, end: nat, k: nat, t: string)
    requires t != [] && AllBare(t) && At(buf, pos, t) && end == pos + |t|
    requires WordBoundary(buf, end, k, true)
    ensures !IsSeparator(buf[pos]) && Step(buf, pos) == Some(Fragment(Finish, t, k - pos))
  {
    BoundaryChar(buf, end, k, true);
    NativeRun(buf, pos, end, t);
  }

  /** The bare-word reader started on whitespace that runs up to `k` reads
      what it reads from `k`, consuming the whitespace as well. */
  lemma NativeShift(buf: string, q: nat, k: nat)
    requires q <= k < |buf| && SkipWhitespace(buf, q) == k
    ensures var g := ParseNative(buf, k);
      ParseNative(buf, q) == Fragment(g.status, g.part, g.consumed + (k - q))
  {
    SkipWhitespaceSpec(buf, q);
    assert SkipWhitespace(buf, k) == k;
  }

  // ---------------------------------------------------------------------
  // The scan loop on rendered text

  /** Whitespace running up to `k` is skipped without effect when no token
      is pending. */
  lemma GapSkip(buf: string, q: nat, k: nat, acc: seq<string>, fixed: bool)
    requires q < k <= |buf| && SkipWhitespace(buf, q) == k
    ensures Scan(buf, q, [], acc, fixed) == Scan(buf, k, [], acc, fixed)
  {
    assert Text.IsWhitespace(buf[q]);
    var f := ParseNative(buf, q);
    assert Step(buf, q) == Some(f);
    if k < |buf| && IsBare(buf[k]) {
      GapBeforeBare(buf, q, k, acc, fixed);
    } else {
      SkipWhitespaceSpec(buf, q);
      assert ScanBare(buf, k) == k;
      if k < |buf| {
        assert SkipWhitespace(buf, k) == k;
      }
      assert f.part == [] && f.consumed == k - q;
      ScanGrows(buf, q, k, f, [], [], acc, fixed);
    }
  }

  /** Whitespace before a bare run: the reader started on the whitespace
      reads what the reader started on the run reads. */
  lemma GapBeforeBare(buf: string, q: nat, k: nat, acc: seq<string>, fixed: bool)
    requires q < k < |buf| && SkipWhitespace(buf, q) == k && IsBare(buf[k])
    ensures Scan(buf, q, [], acc, fixed) == Scan(buf, k, [], acc, fixed)
  {
    NativeShift(buf, q, k);
    var f := ParseNative(buf, q);
    var g := ParseNative(buf, k);
    var next := q + f.consumed;
    assert Text.IsWhitespace(buf[q]);
    assert Step(buf, q) == Some(f);
    assert Step(buf, k) == Some(g);
    ScanFragmentStep(buf, q, next, f, [], acc, fixed);
    ScanFragmentStep(buf, k, next, g, [], acc, fixed);
  }

  /** A quoted or escaped piece followed directly by more of the word only
      extends the pending token. */
  lemma PieceContinues(buf: string, pos: nat, next: nat, p: Piece, cur: string, grown: string,
                       acc: seq<string>, fixed: bool)
    requires ValidPiece(p) && !p.Bare? && At(buf, pos, RenderPiece(p))
    requires next == pos + |RenderPiece(p)| && grown == cur + PieceValue(p)
    requires next < |buf| && !Text.IsWhitespace(buf[next])
    ensures Scan(buf, pos, cur, acc, fixed) == Scan(buf, next, grown, acc, fixed)
  {
    PieceFragment(buf, pos, p);
    ScanGrows(buf, pos, next, Step(buf, pos).value, cur, grown, acc, fixed);
  }

  /** A bare run followed directly by a quote or backslash only extends the
      pending token. */
  lemma BareContinues(buf: string, pos: nat, next: nat, t: string, cur: string, grown: string,
                      acc: seq<string>, fixed: bool)
    requires t != [] && AllBare(t) && At(buf, pos, t)
    requires next == pos + |t| && grown == cur + t
    requires next < |buf| && IsSpecial(buf[next])
    ensures Scan(buf, pos, cur, acc, fixed) == Scan(buf, next, grown, acc, fixed)
  {
    BareFragment(buf, pos, t);
    ScanGrows(buf, pos, next, Step(buf, pos).value, cur, grown, acc, fixed);
  }

  /** A bare run that ends its word, at `end`, emits the pending token; the
      whitespace after it, up to `k`, is read with it. */
  lemma BareEnds(buf: string, pos: nat, end: nat, k: nat, t: string, cur: string, value: string,
                 acc: seq<string>, fixed: bool)
    requires t != [] && AllBare(t) && At(buf, pos, t)
    requires end == pos + |t| && WordBoundary(buf, end, k, true)
    requires value == cur + t
    ensures Scan(buf, pos, cur, acc, fixed) == Scan(buf, k, [], Flush(acc, value), fixed)
  {
    BareEndFragment(buf, pos, end, k, t);
    ScanEmits(buf, pos, k, Fragment(Finish, t, k - pos), cur, acc, Flush(acc, value), fixed);
  }

  /** A quoted or escaped piece that ends its word, at `end`, emits the
      pending token, unless it is still empty, and the whitespace after it,
      up to `k`, is skipped. */
  lemma QuotedEnds(buf: string, pos: nat, end: nat, k: nat, p: Piece, cur: string, value: string,
                   acc: seq<string>, fixed: bool)
    requires ValidPiece(p) && !p.Bare? && At(buf, pos, RenderPiece(p))
    requires end == pos + |RenderPiece(p)| && WordBoundary(buf, end, k, false)
    requires value == cur + PieceValue(p)
    ensures Scan(buf, pos, cur, acc, fixed) == Scan(buf, k, [], Flush(acc, value), fixed)
  {
    var acc' := Flush(acc, value);
    BoundaryChar(buf, end, k, false);
    PieceFragment(buf, pos, p);
    ScanEmits(buf, pos, end, Step(buf, pos).value, cur, acc, acc', fixed);
    if end < k {
      GapSkip(buf, end, k, acc', fixed);
    }
  }

  /** Where the rest of a word starts, and what character is there. */
  lemma WordHeadLayout(buf: string, pos: nat, ps: seq<Piece>)
    requires ValidWord(ps) && |ps| > 1 && At(buf, pos, RenderPieces(ps))
    ensures At(buf, pos, RenderPiece(ps[0]))
    ensures At(buf, pos + |RenderPiece(ps[0])|, RenderPieces(ps[1..]))
    ensures |RenderPieces(ps)| == |RenderPiece(ps[0])| + |RenderPieces(ps[1..])|
    ensures ValidWord(ps[1..]) && ValidPiece(ps[0])
    ensures var n := pos + |RenderPiece(ps[0])|;
      && n < |buf| && !Text.IsWhitespace(buf[n])
      && (ps[0].Bare? ==> IsSpecial(buf[n]))
  {
    var r := RenderPiece(ps[0]);
    var rest := ps[1..];
    assert RenderPieces(ps) == r + RenderPieces(rest);
    AtConcat(buf, pos, r, RenderPieces(rest));
    WordFirstChar(rest);
    PieceFirstChar(rest[0]);
    AtChar(buf, pos + |r|, RenderPieces(rest), 0);
  }

  /** The first piece of a word followed by more pieces only extends the
      pending token: the scan goes on at `next` with `grown` pending. */
  lemma WordHead(buf: string, pos: nat, next: nat, ps: seq<Piece>, cur: string, grown: string,
                 acc: seq<string>, fixed: bool)
    requires ValidWord(ps) && |ps| > 1 && At(buf, pos, RenderPieces(ps))
    requires next == pos + |RenderPiece(ps[0])| && grown == cur + PieceValue(ps[0])
    ensures next <= |buf|
    ensures Scan(buf, pos, cur, acc, fixed) == Scan(buf, next, grown, acc, fixed)
  {
    WordHeadLayout(buf, pos, ps);
    PieceExtends(buf, pos, next, ps[0], cur, grown, acc, fixed);
  }

  /** A piece followed directly by more of its word only extends the
      pending token. */
  lemma PieceExtends(buf: string, pos: nat, next: nat, p: Piece, cur: string, grown: string,
                     acc: seq<string>, fixed: bool)
    requires ValidPiece(p) && At(buf, pos, RenderPiece(p))
    requires next == pos + |RenderPiece(p)| && grown == cur + PieceValue(p)
    requires next < |buf| && !Text.IsWhitespace(buf[next])
    requires p.Bare? ==> IsSpecial(buf[next])
    ensures Scan(buf, pos, cur, acc, fixed) == Scan(buf, next, grown, acc, fixed)
  {
    if p.Bare? {
      BareContinues(buf, pos, next, p.text, cur, grown, acc, fixed);
    } else {
      PieceContinues(buf, pos, next, p, cur, grown, acc, fixed);
    }
  }

  /** The last piece of a word emits the pending token, which by then holds
      `value`, and the scan goes on at `k`. */
  lemma WordLast(buf: string, pos: nat, end: nat, k: nat, ps: seq<Piece>, cur: string, value: string,
                 acc: seq<string>, fixed: bool)
    requires ValidWord(ps) && |ps| == 1 && At(buf, pos, RenderPieces(ps))
    requires end == pos + |RenderPieces(ps)| && WordBoundary(buf, end, k, ps[0].Bare?)
    requires value == cur + WordValue(ps)
    ensures Scan(buf, pos, cur, acc, fixed) == Scan(buf, k, [], Flush(acc, value), fixed)
  {
    WordOne(ps);
    PieceEnds(buf, pos, end, k, ps[0], cur, value, acc, fixed);
  }

  /** A word of one piece. */
  lemma WordOne(ps: seq<Piece>)
    requires |ps| == 1
    ensures RenderPieces(ps) == RenderPiece(ps[0]) && WordValue(ps) == PieceValue(ps[0])
  {
    assert RenderPieces(ps[1..]) == [] && WordValue(ps[1..]) == [];
  }

  /** A piece that ends its word emits the pending token. */
  lemma PieceEnds(buf: string, pos: nat, end: nat, k: nat, p: Piece, cur: string, value: string,
                  acc: seq<string>, fixed: bool)
    requires ValidPiece(p) && At(buf, pos, RenderPiece(p))
    requires end == pos + |RenderPiece(p)| && WordBoundary(buf, end, k, p.Bare?)
    requires value == cur + PieceValue(p)
    ensures Scan(buf, pos, cur, acc, fixed) == Scan(buf, k, [], Flush(acc, value), fixed)
  {
    if p.Bare? {
      BareEnds(buf, pos, end, k, p.text, cur, value, acc, fixed);
    } else {
      QuotedEnds(buf, pos, end, k, p, cur, value, acc, fixed);
    }
  }

  /** A word of several pieces is its first piece followed by the rest. */
  lemma WordSplit(ps: seq<Piece>)
    requires |ps| > 1
    ensures |RenderPieces(ps)| == |RenderPiece(ps[0])| + |RenderPieces(ps[1..])|
    ensures WordValue(ps) == PieceValue(ps[0]) + WordValue(ps[1..])
    ensures ps[1..][|ps| - 2] == ps[|ps| - 1]
  {
  }

  /** The rest of a word of several pieces is laid out as a word from `next`
      on and ends where the whole word ends. */
  lemma WordRest(buf: string, pos: nat, next: nat, ps: seq<Piece>)
    requires ValidWord(ps) && |ps| > 1 && At(buf, pos, RenderPieces(ps))
    requires next == pos + |RenderPiece(ps[0])|
    ensures ValidWord(ps[1..])
    ensures At(buf, next, RenderPieces(ps[1..]))
    ensures next + |RenderPieces(ps[1..])| == pos + |RenderPieces(ps)|
  {
    WordHeadLayout(buf, pos, ps);
  }

  /** Scanning one word: the pending token grows by the word's value and is
      emitted once the word ends, at `end`, and the scan goes on at `k`. */
  lemma {:induction false} ScanWord(buf: string, pos: nat, end: nat, k: nat, ps: seq<Piece>, cur: string,
                                    value: string, acc: seq<string>, fixed: bool)
    requires ValidWord(ps) && At(buf, pos, RenderPieces(ps))
    requires end == pos + |RenderPieces(ps)| && WordBoundary(buf, end, k, ps[|ps| - 1].Bare?)
    requires value == cur + WordValue(ps)
    ensures Scan(buf, pos, cur, acc, fixed) == Scan(buf, k, [], Flush(acc, value), fixed)
    decreases |ps|
  {
    if |ps| > 1 {
      var next := pos + |RenderPiece(ps[0])|;
      var grown := cur + PieceValue(ps[0]);
      WordRest(buf, pos, next, ps);
      WordSplit(ps);
      Seqs.Assoc(cur, PieceValue(ps[0]), WordValue(ps[1..]));
      WordHead(buf, pos, next, ps, cur, grown, acc, fixed);
      ScanWord(buf, next, end, k, ps[1..], grown, value, acc, fixed);
    } else {
      WordLast(buf, pos, end, k, ps, cur, value, acc, fixed);
    }
  }

  /** Scanning one group with no token pending emits its tokens, which
      extend `acc` to `acc'`, and the scan goes on at `k`. */
  lemma ScanGroup(buf: string, pos: nat, end: nat, k: nat, g: Group, acc: seq<string>, acc': seq<string>,
                  fixed: bool)
    requires ValidGroup(g) && At(buf, pos, RenderGroup(g))
    requires end == pos + |RenderGroup(g)| && GroupBoundary(buf, end, k, g)
    requires acc' == acc + GroupTokens(g)
    ensures Scan(buf, pos, [], acc, fixed) == Scan(buf, k, [], acc', fixed)
  {
    match g
    case Word(ps) =>
      assert WordValue(ps) == [] + WordValue(ps);
      ScanWord(buf, pos, end, k, ps, [], WordValue(ps), acc, fixed);
      assert Flush(acc, WordValue(ps)) == acc';
    case Separator(c) =>
      ScanSeparatorThenGap(buf, pos, end, k, c, acc, acc', fixed);
  }

  /** A separator group and the whitespace after it, up to `k`. */
  lemma ScanSeparatorThenGap(buf: string, pos: nat, end: nat, k: nat, c: char, acc: seq<string>,
                             acc': seq<string>, fixed: bool)
    requires IsSeparator(c) && At(buf, pos, [c]) && end == pos + 1
    requires end <= |buf| && SkipWhitespace(buf, end) == k && acc' == acc + [[c]]
    ensures Scan(buf, pos, [], acc, fixed) == Scan(buf, k, [], acc', fixed)
  {
    ScanSeparatorGroup(buf, pos, c, acc, fixed);
    if end < k {
      GapSkip(buf, end, k, acc', fixed);
    }
  }

  /** A separator with no token pending is emitted on its own. */
  lemma ScanSeparatorGroup(buf: string, pos: nat, c: char, acc: seq<string>, fixed: bool)
    requires IsSeparator(c) && At(buf, pos, [c])
    ensures Scan(buf, pos, [], acc, fixed) == Scan(buf, pos + 1, [], acc + [[c]], fixed)
  {
    var next := pos + 1;
    AtChar(buf, pos, [c], 0);
    assert Flush(acc, []) == acc;
    assert [] + [c] == [c];
    ScanSeparatorStep(buf, pos, next, [], acc, acc + [[c]], fixed);
  }

  /** The joint after a group ends it where the next group starts. */
  lemma JointEnds(buf: string, e: nat, k: nat, g: Group, j: string, h: Group, rest: string)
    requires ValidGroup(g) && ValidGroup(h) && ValidJoint(g, j, h) && At(buf, e, j) && k == e + |j|
    requires At(buf, k, rest) && rest != [] && !Text.IsWhitespace(rest[0])
    requires h.Separator? ==> rest[0] == h.sep
    ensures GroupBoundary(buf, e, k, g)
  {
    AtChar(buf, k, rest, 0);
    SkipRun(buf, e, j);
    if j == [] && h.Separator? {
      assert IsSeparator(buf[e]);
    }
  }

  /** A line of several groups: the first group, ending at `e`, its joint,
      and the rest of the line from `k`. */
  lemma LineLayout(buf: string, pos: nat, e: nat, k: nat, gs: seq<Group>, js: seq<string>)
    requires Joined(gs, js) && |gs| > 1 && At(buf, pos, RenderLine(gs, js))
    requires e == pos + |RenderGroup(gs[0])| && k == e + |js[0]|
    ensures At(buf, pos, RenderGroup(gs[0])) && GroupBoundary(buf, e, k, gs[0])
    ensures At(buf, k, RenderLine(gs[1..], js[1..]))
    ensures k + |RenderLine(gs[1..], js[1..])| == pos + |RenderLine(gs, js)|
    ensures ValidGroup(gs[0]) && Joined(gs[1..], js[1..])
  {
    var r := RenderGroup(gs[0]);
    var j := js[0];
    var rest := RenderLine(gs[1..], js[1..]);
    assert RenderLine(gs, js) == r + j + rest;
    AtParts(buf, pos, e, k, r, j, rest);
    LineFirstChar(gs[1..], js[1..]);
    assert gs[1..][0] == gs[1];
    JointEnds(buf, e, k, gs[0], j, gs[1], rest);
  }

  /** The last group of a line emits its tokens and the scan ends. */
  lemma ScanLastGroup(buf: string, pos: nat, gs: seq<Group>, js: seq<string>, acc: seq<string>,
                      out: seq<string>, fixed: bool)
    requires |gs| == 1 && js == [] && ValidGroup(gs[0])
    requires At(buf, pos, RenderLine(gs, js)) && pos + |RenderLine(gs, js)| == |buf|
    requires out == acc + LineValues(gs)
    ensures Scan(buf, pos, [], acc, fixed) == Some(out)
  {
    var g := gs[0];
    assert LineValues(gs) == GroupTokens(g) + LineValues([]);
    assert out == acc + GroupTokens(g);
    ScanGroup(buf, pos, |buf|, |buf|, g, acc, out, fixed);
    assert Flush(out, []) == out;
  }

  /** Scanning a rendered line that ends the buffer emits its non-empty
      values after `acc`, which gives `out`. */
  lemma {:induction false} ScanLine(buf: string, pos: nat, gs: seq<Group>, js: seq<string>,
                                    acc: seq<string>, out: seq<string>, fixed: bool)
    requires Joined(gs, js)
    requires At(buf, pos, RenderLine(gs, js)) && pos + |RenderLine(gs, js)| == |buf|
    requires out == acc + LineValues(gs)
    ensures Scan(buf, pos, [], acc, fixed) == Some(out)
    decreases |gs|, 0
  {
    if |gs| == 1 {
      ScanLastGroup(buf, pos, gs, js, acc, out, fixed);
    } else {
      var e := pos + |RenderGroup(gs[0])|;
      var k := e + |js[0]|;
      var acc' := acc + GroupTokens(gs[0]);
      LineLayout(buf, pos, e, k, gs, js);
      LineStep(acc, acc', out, gs);
      ScanLineStep(buf, pos, e, k, gs[0], gs[1..], js[1..], acc, acc', out, fixed);
    }
  }

  /** A group that is not the last of its line, ending at `e`, its joint up
      to `k`, and the rest of the line by induction. */
  lemma {:induction false} ScanLineStep(buf: string, pos: nat, e: nat, k: nat, g: Group, rest: seq<Group>,
                                        js: seq<string>, acc: seq<string>, acc': seq<string>,
                                        out: seq<string>, fixed: bool)
    requires ValidGroup(g) && At(buf, pos, RenderGroup(g))
    requires e == pos + |RenderGroup(g)| && GroupBoundary(buf, e, k, g)
    requires Joined(rest, js) && At(buf, k, RenderLine(rest, js)) && k + |RenderLine(rest, js)| == |buf|
    requires acc' == acc + GroupTokens(g) && out == acc' + LineValues(rest)
    ensures Scan(buf, pos, [], acc, fixed) == Some(out)
    decreases |rest|, 1
  {
    ScanGroup(buf, pos, e, k, g, acc, acc', fixed);
    ScanLine(buf, k, rest, js, acc', out, fixed);
  }

  /** The values of a line of several groups are the first group's tokens
      followed by the rest's. */
  lemma LineStep(acc: seq<string>, acc': seq<string>, out: seq<string>, gs: seq<Group>)
    requires |gs| > 1
    requires acc' == acc + GroupTokens(gs[0]) && out == acc + LineValues(gs)
    ensures out == acc' + LineValues(gs[1..])
  {
    var t := GroupTokens(gs[0]);
    var r := LineValues(gs[1..]);
    assert LineValues(gs) == t + r;
    Seqs.Assoc(acc, t, r);
  }

  /** Tokenizing a rendered line, with any whitespace before and after it,
      gives back its non-empty group values, in order: quoted text verbatim
      (up to the double-quote escapes), escaped characters literally,
      adjacent pieces concatenated, separators as one-character tokens and
      whitespace nowhere.  Input that ends with a backslash is refused. */
  lemma TokenizeRenderedLine(lead: string, gs: seq<Group>, js: seq<string>, trail: string)
    requires ValidLine(gs, js) && AllWhitespace(lead) && AllWhitespace(trail)
    ensures var input := lead + RenderLine(gs, js) + trail;
      Tokenize(input) == if input[|input| - 1] == '\\' then None else Some(LineValues(gs))
  {
    LineTrimmed(lead, gs, js, trail);
    RenderedLineScan(gs, js, false);
  }

  /** The corrected tokenizer reads a rendered line the same way. */
  lemma TokenizeFixedRenderedLine(lead: string, gs: seq<Group>, js: seq<string>, trail: string)
    requires ValidLine(gs, js) && AllWhitespace(lead) && AllWhitespace(trail)
    ensures var input := lead + RenderLine(gs, js) + trail;
      TokenizeFixed(input) == if input[|input| - 1] == '\\' then None else Some(LineValues(gs))
  {
    LineTrimmed(lead, gs, js, trail);
    RenderedLineScan(gs, js, true);
  }

  /** Trimming a padded rendered line leaves the line. */
  lemma LineTrimmed(lead: string, gs: seq<Group>, js: seq<string>, trail: string)
    requires ValidLine(gs, js) && AllWhitespace(lead) && AllWhitespace(trail)
    ensures Text.Trim(lead + RenderLine(gs, js) + trail) == RenderLine(gs, js)
  {
    LineFirstChar(gs, js);
    Text.TrimPadded(lead, RenderLine(gs, js), trail);
  }

  /** The scan of a whole rendered line. */
  lemma RenderedLineScan(gs: seq<Group>, js: seq<string>, fixed: bool)
    requires Joined(gs, js)
    ensures Scan(RenderLine(gs, js), 0, [], [], fixed) == Some(LineValues(gs))
  {
    var line := RenderLine(gs, js);
    AtWhole(line);
    assert LineValues(gs) == [] + LineValues(gs);
    ScanLine(line, 0, gs, js, [], LineValues(gs), fixed);
  }

  // ---------------------------------------------------------------------
  // Concrete lines

  /** The groups and joints of `echo shell   hello`. */
  const SpaceRunGroups: seq<Group> := [Word([Bare("echo")]), Word([Bare("shell")]), Word([Bare("hello")])]
  const SpaceRunJoints: seq<string> := [" ", "   "]

  lemma SpaceRunRender()
    ensures RenderLine(SpaceRunGroups, SpaceRunJoints) == "echo shell   hello"
  {
    var gs, js := SpaceRunGroups, SpaceRunJoints;
    WordOne(gs[0].pieces);
    WordOne(gs[1].pieces);
    WordOne(gs[2].pieces);
    assert gs[1..] == [gs[1], gs[2]] && gs[1..][1..] == [gs[2]];
    assert js[1..] == ["   "] && js[1..][1..] == [];
    var tail := RenderLine([gs[2]], []);
    assert tail == "hello";
    var rest := RenderLine([gs[1], gs[2]], ["   "]);
    assert rest == "shell" + "   " + tail;
    assert RenderLine(gs, js) == "echo" + " " + rest;
    SpaceRunText();
  }

  lemma SpaceRunText()
    ensures "echo" + " " + ("shell" + "   " + "hello") == "echo shell   hello"
  {
  }

  lemma SpaceRunValid()
    ensures ValidLine(SpaceRunGroups, SpaceRunJoints)
  {
    var gs, js := SpaceRunGroups, SpaceRunJoints;
    assert gs[1..] == [gs[1], gs[2]] && gs[1..][1..] == [gs[2]];
    assert js[1..] == ["   "] && js[1..][1..] == [];
    assert Joined([gs[2]], []);
    assert Joined([gs[1], gs[2]], ["   "]);
    SpaceRunRender();
    var r := RenderLine(gs, js);
    assert r[|r| - 1] == 'o';
  }

  lemma SpaceRunValues()
    ensures LineValues(SpaceRunGroups) == ["echo", "shell", "hello"]
  {
    var gs := SpaceRunGroups;
    WordOne(gs[0].pieces);
    WordOne(gs[1].pieces);
    WordOne(gs[2].pieces);
    assert gs[1..] == [gs[1], gs[2]] && gs[1..][1..] == [gs[2]];
    assert LineValues([gs[2]]) == ["hello"];
    assert LineValues([gs[1], gs[2]]) == ["shell"] + ["hello"];
    assert LineValues(gs) == ["echo"] + (["shell"] + ["hello"]);
  }

  /** A line with nothing before or after it. */
  lemma Unpadded(line: string)
    ensures [] + line + [] == line
  {
  }

  /** A test case of `tokenize`: a run of spaces between bare words
      separates them like one space. */
  lemma SpaceRunSeparates(input: string)
    requires input == "echo shell   hello"
    ensures Tokenize(input) == Some(["echo", "shell", "hello"])
  {
    SpaceRunValid();
    SpaceRunRender();
    SpaceRunValues();
    TokenizeRenderedLine([], SpaceRunGroups, SpaceRunJoints, []);
    Unpadded(RenderLine(SpaceRunGroups, SpaceRunJoints));
  }

  /** The groups and joints of `ls|wc`. */
  const PipeGroups: seq<Group> := [Word([Bare("ls")]), Separator('|'), Word([Bare("wc")])]
  const PipeJoints: seq<string> := ["", ""]

  lemma PipeRender()
    ensures RenderLine(PipeGroups, PipeJoints) == "ls|wc"
  {
    var gs, js := PipeGroups, PipeJoints;
    WordOne(gs[0].pieces);
    WordOne(gs[2].pieces);
    assert gs[1..] == [gs[1], gs[2]] && gs[1..][1..] == [gs[2]];
    assert js[1..] == [""] && js[1..][1..] == [];
    var tail := RenderLine([gs[2]], []);
    assert tail == "wc";
    var rest := RenderLine([gs[1], gs[2]], [""]);
    assert rest == "|" + "" + tail;
    assert RenderLine(gs, js) == "ls" + "" + rest;
    PipeText();
  }

  lemma PipeText()
    ensures "ls" + "" + ("|" + "" + "wc") == "ls|wc"
  {
  }

  lemma PipeValid()
    ensures ValidLine(PipeGroups, PipeJoints)
  {
    var gs, js := PipeGroups, PipeJoints;
    assert gs[1..] == [gs[1], gs[2]] && gs[1..][1..] == [gs[2]];
    assert js[1..] == [""] && js[1..][1..] == [];
    assert EndsBare(gs[0]);
    assert Joined([gs[2]], []);
    assert Joined([gs[1], gs[2]], [""]);
    PipeRender();
    var r := RenderLine(gs, js);
    assert r[|r| - 1] == 'c';
  }

  lemma PipeValues()
    ensures LineValues(PipeGroups) == ["ls", "|", "wc"]
  {
    var gs := PipeGroups;
    WordOne(gs[0].pieces);
    WordOne(gs[2].pieces);
    assert gs[1..] == [gs[1], gs[2]] && gs[1..][1..] == [gs[2]];
    assert LineValues([gs[2]]) == ["wc"];
    assert LineValues([gs[1], gs[2]]) == ["|"] + ["wc"];
    assert LineValues(gs) == ["ls"] + (["|"] + ["wc"]);
  }

  /** A separator written directly after a bare word, and a word directly
      after it, are still tokens of their own. */
  lemma SeparatorWithoutSpaces(input: string)
    requires input == "ls|wc"
    ensures Tokenize(input) == Some(["ls", "|", "wc"])
    ensures TokenizeFixed(input) == Some(["ls", "|", "wc"])
  {
    PipeValid();
    PipeRender();
    PipeValues();
    TokenizeRenderedLine([], PipeGroups, PipeJoints, []);
    TokenizeFixedRenderedLine([], PipeGroups, PipeJoints, []);
    Unpadded(RenderLine(PipeGroups, PipeJoints));
  }

  // ---------------------------------------------------------------------
  // A separator right after a quoted piece

  /** The text of a single-quoted word followed directly by a separator and
      then a rendered line. */
  function QuotedThenSeparator(a: string, c: char, gs: seq<Group>, js: seq<string>): string
    requires |gs| >= 1 && |js| == |gs| - 1
  {
    ['\''] + a + ['\''] + [c] + RenderLine(gs, js)
  }

  /** Where the quoted word, the separator and the rest of the line sit. */
  lemma QuotedThenSeparatorLayout(buf: string, a: string, c: char, gs: seq<Group>, js: seq<string>)
    requires |gs| >= 1 && |js| == |gs| - 1 && buf == QuotedThenSeparator(a, c, gs, js)
    ensures At(buf, 0, ['\''] + a + ['\'']) && |a| + 2 < |buf| && buf[|a| + 2] == c
    ensures At(buf, |a| + 3, RenderLine(gs, js)) && |a| + 3 + |RenderLine(gs, js)| == |buf|
  {
    var q := ['\''] + a + ['\''];
    var r := RenderLine(gs, js);
    assert buf == q + [c] + r;
    AtWhole(buf);
    AtSplit(buf, 0, |q|, |q| + 1, q, c, r);
  }

  /** The text starts with a quote and ends as the rendered line does, so
      `tokenize` scans it untrimmed. */
  lemma QuotedThenSeparatorEnds(buf: string, a: string, c: char, gs: seq<Group>, js: seq<string>)
    requires ValidLine(gs, js) && buf == QuotedThenSeparator(a, c, gs, js)
    ensures Text.Trim(buf) == buf
    ensures var r := RenderLine(gs, js); buf[|buf| - 1] == r[|r| - 1]
  {
    var r := RenderLine(gs, js);
    assert buf == (['\''] + a + ['\''] + [c]) + r;
    assert buf[|buf| - 1] == r[|r| - 1];
    assert buf[0] == '\'';
    Text.TrimNoOp(buf);
  }

  /** A single-quoted word followed directly by a non-space character only
      starts the pending token. */
  lemma QuoteOpensToken(buf: string, a: string, fixed: bool)
    requires '\'' !in a && At(buf, 0, ['\''] + a + ['\''])
    requires |a| + 2 < |buf| && !Text.IsWhitespace(buf[|a| + 2])
    ensures Scan(buf, 0, [], [], fixed) == Scan(buf, |a| + 2, a, [], fixed)
  {
    SingleQuotedFragment(buf, 0, a);
    assert StatusAfterQuote(buf, 1 + |a|) == Continue;
    ScanFragmentStep(buf, 0, |a| + 2, Fragment(Continue, a, |a| + 2), [], [], fixed);
    assert [] + a == a;
  }

  /** A separator after a pending token: as written it is appended to the
      token, with the correction it follows it as a token of its own; either
      way `first` holds the tokens so far and the scan goes on at `next`. */
  lemma SeparatorAfterToken(buf: string, p: nat, next: nat, a: string, first: seq<string>, fixed: bool)
    requires p < |buf| && IsSeparator(buf[p]) && a != [] && next == p + 1
    requires first == if fixed then [a, [buf[p]]] else [a + [buf[p]]]
    ensures Scan(buf, p, a, [], fixed) == Scan(buf, next, [], first, fixed)
  {
    assert Flush([], a) == [a];
    assert [a] + [[buf[p]]] == [a, [buf[p]]];
    assert [] + [a + [buf[p]]] == [a + [buf[p]]];
    ScanSeparatorStep(buf, p, next, a, [], first, fixed);
  }

  /** Scanning a quoted word glued to a separator: as written the separator
      joins the quoted text; with the correction both are tokens of their
      own.  `first` holds those tokens and `out` all of them. */
  lemma ScanQuotedThenSeparator(buf: string, a: string, c: char, gs: seq<Group>, js: seq<string>,
                                fixed: bool, first: seq<string>, out: seq<string>)
    requires '\'' !in a && a != [] && IsSeparator(c) && Joined(gs, js)
    requires At(buf, 0, ['\''] + a + ['\''])
    requires |a| + 2 < |buf| && buf[|a| + 2] == c
    requires At(buf, |a| + 3, RenderLine(gs, js)) && |a| + 3 + |RenderLine(gs, js)| == |buf|
    requires first == (if fixed then [a, [c]] else [a + [c]]) && out == first + LineValues(gs)
    ensures Scan(buf, 0, [], [], fixed) == Some(out)
  {
    QuoteOpensToken(buf, a, fixed);
    SeparatorAfterToken(buf, |a| + 2, |a| + 3, a, first, fixed);
    ScanLine(buf, |a| + 3, gs, js, first, out, fixed);
  }

  /** As written, `tokenize` glues a separator onto a quoted word before it:
      `'a'|b` reads as `a|` and `b`. */
  lemma TokenizeGluesSeparator(a: string, c: char, gs: seq<Group>, js: seq<string>)
    requires '\'' !in a && a != [] && IsSeparator(c) && ValidLine(gs, js)
    ensures var input := QuotedThenSeparator(a, c, gs, js);
      Tokenize(input) == if input[|input| - 1] == '\\' then None else Some([a + [c]] + LineValues(gs))
  {
    var buf := QuotedThenSeparator(a, c, gs, js);
    QuotedThenSeparatorLayout(buf, a, c, gs, js);
    QuotedThenSeparatorEnds(buf, a, c, gs, js);
    ScanQuotedThenSeparator(buf, a, c, gs, js, false, [a + [c]], [a + [c]] + LineValues(gs));
  }

  /** With the correction the quoted word and the separator are separate
      tokens: `'a'|b` reads as `a`, `|` and `b`. */
  lemma TokenizeFixedSplitsSeparator(a: string, c: char, gs: seq<Group>, js: seq<string>)
    requires '\'' !in a && a != [] && IsSeparator(c) && ValidLine(gs, js)
    ensures var input := QuotedThenSeparator(a, c, gs, js);
      TokenizeFixed(input) == if input[|input| - 1] == '\\' then None else Some([a, [c]] + LineValues(gs))
  {
    var buf := QuotedThenSeparator(a, c, gs, js);
    QuotedThenSeparatorLayout(buf, a, c, gs, js);
    QuotedThenSeparatorEnds(buf, a, c, gs, js);
    ScanQuotedThenSeparator(buf, a, c, gs, js, true, [a, [c]], [a, [c]] + LineValues(gs));
  }
}
