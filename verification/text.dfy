/** String helpers standing in for the Rust standard library calls the shell
    front end relies on: `char::is_whitespace`, `str::trim`, `[String]::join`,
    `str::split(' ')` and `BufRead::lines`. */
module Text {
  import Seqs

  /** ASCII stand-in for `char::is_whitespace`: space, tab, line feed,
      carriage return, vertical tab and form feed. */
  predicate IsWhitespace(c: char) {
    c == ' ' || c == '\t' || c == '\n' || c == '\r' || c == '\U{000B}' || c == '\U{000C}'
  }

  predicate AllWhitespace(s: string) {
    forall k :: 0 <= k < |s| ==> IsWhitespace(s[k])
  }

  predicate NoWhitespace(s: string) {
    forall k :: 0 <= k < |s| ==> !IsWhitespace(s[k])
  }

  /** The first position at or after `i` that does not hold whitespace. */
  function SkipLeading(s: string, i: nat): (j: nat)
    requires i <= |s|
    ensures i <= j <= |s|
    ensures forall k :: i <= k < j ==> IsWhitespace(s[k])
    ensures j < |s| ==> !IsWhitespace(s[j])
    decreases |s| - i
  {
    if i < |s| && IsWhitespace(s[i]) then SkipLeading(s, i + 1) else i
  }

  /** The first position at or before `j`, and not below `lo`, from which
      only whitespace runs up to `j`. */
  function SkipTrailing(s: string, lo: nat, j: nat): (i: nat)
    requires lo <= j <= |s|
    ensures lo <= i <= j
    ensures forall k :: i <= k < j ==> IsWhitespace(s[k])
    ensures i > lo ==> !IsWhitespace(s[i - 1])
    decreases j
  {
    if j > lo && IsWhitespace(s[j - 1]) then SkipTrailing(s, lo, j - 1) else j
  }

  /** `str::trim`: `s` without its leading and trailing whitespace. */
  function Trim(s: string): (r: string)
    ensures |r| <= |s|
    ensures r != [] ==> !IsWhitespace(r[0]) && !IsWhitespace(r[|r| - 1])
  {
    var i := SkipLeading(s, 0);
    s[i..SkipTrailing(s, i, |s|)]
  }

  /** What `Trim` keeps: the infix of `s` between its leading and trailing
      whitespace runs. */
  lemma TrimSpec(s: string)
    ensures var r := Trim(s);
      var i := SkipLeading(s, 0);
      && i + |r| <= |s|
      && s == s[..i] + r + s[i + |r|..]
      && AllWhitespace(s[..i])
      && AllWhitespace(s[i + |r|..])
  {
    var i := SkipLeading(s, 0);
    var j := SkipTrailing(s, i, |s|);
    Seqs.Split3(s, i, j);
  }

  /** Trimming text with no whitespace at either end changes nothing. */
  lemma TrimNoOp(s: string)
    requires s != [] ==> !IsWhitespace(s[0]) && !IsWhitespace(s[|s| - 1])
    ensures Trim(s) == s
  {
  }

  /** Trimming whitespace padding around text with no whitespace at either
      end gives back that text. */
  lemma TrimPadded(lead: string, r: string, trail: string)
    requires AllWhitespace(lead) && AllWhitespace(trail)
    requires r != [] && !IsWhitespace(r[0]) && !IsWhitespace(r[|r| - 1])
    ensures Trim(lead + r + trail) == r
  {
    var s := lead + r + trail;
    var n := |lead| + |r|;
    assert s[|lead|] == r[0] && s[n - 1] == r[|r| - 1];
    assert forall k :: 0 <= k < |lead| ==> s[k] == lead[k];
    assert forall k :: n <= k < |s| ==> s[k] == trail[k - n];
    var i := SkipLeading(s, 0);
    assert i == |lead|;
    var j := SkipTrailing(s, i, |s|);
    assert j == n;
    assert s[i..j] == r;
  }

  /** `parts.join(sep)`. */
  function Join(parts: seq<string>, sep: char): (r: string)
    ensures |parts| == 1 ==> r == parts[0]
    decreases |parts|
  {
    if |parts| == 0 then []
    else if |parts| == 1 then parts[0]
    else parts[0] + [sep] + Join(parts[1..], sep)
  }

  /** The last part, when it is not empty, ends the joined text. */
  lemma {:induction false} JoinLast(parts: seq<string>, sep: char)
    requires |parts| >= 1 && parts[|parts| - 1] != []
    ensures var r := Join(parts, sep); var l := parts[|parts| - 1];
      r != [] && r[|r| - 1] == l[|l| - 1]
    decreases |parts|
  {
    if |parts| > 1 {
      JoinLast(parts[1..], sep);
    }
  }

  /** The joined text starts with the first part's first character and ends
      with the last part's last character. */
  lemma JoinEnds(parts: seq<string>, sep: char)
    requires |parts| >= 1 && parts[0] != [] && parts[|parts| - 1] != []
    ensures var r := Join(parts, sep); var l := parts[|parts| - 1];
      r != [] && r[0] == parts[0][0] && r[|r| - 1] == l[|l| - 1]
  {
    JoinLast(parts, sep);
  }

  /** `s.split(sep)`: the pieces between separators, always at least one. */
  function Split(s: string, sep: char): (r: seq<string>)
    ensures |r| >= 1
    ensures forall i :: 0 <= i < |r| ==> sep !in r[i]
  {
    if s == [] then [[]]
    else
      var rest := Split(s[1..], sep);
      if s[0] == sep then [[]] + rest
      else [[s[0]] + rest[0]] + rest[1..]
  }

  /** Splitting and joining again gives back the original text. */
  lemma {:induction false} JoinSplit(s: string, sep: char)
    ensures Join(Split(s, sep), sep) == s
  {
    if s != [] {
      var rest := Split(s[1..], sep);
      JoinSplit(s[1..], sep);
      if s[0] == sep {
        assert ([[]] + rest)[1..] == rest;
      } else if |rest| > 1 {
        var r := [[s[0]] + rest[0]] + rest[1..];
        assert r[1..] == rest[1..];
        assert Join(rest, sep) == rest[0] + [sep] + Join(rest[1..], sep);
      }
    }
  }

  /** Text without the separator is a single piece. */
  lemma {:induction false} SplitNoSep(a: string, sep: char)
    requires sep !in a
    ensures Split(a, sep) == [a]
  {
    if a != [] {
      SplitNoSep(a[1..], sep);
      assert [a[0]] + a[1..] == a;
    }
  }

  /** A separator after a separator-free prefix closes exactly that piece. */
  lemma {:induction false} SplitAfterPiece(a: string, sep: char, b: string)
    requires sep !in a
    ensures Split(a + [sep] + b, sep) == [a] + Split(b, sep)
  {
    if a == [] {
      assert a + [sep] + b == [sep] + b;
      assert ([sep] + b)[1..] == b;
    } else {
      assert (a + [sep] + b)[1..] == a[1..] + [sep] + b;
      SplitAfterPiece(a[1..], sep, b);
      assert [a[0]] + a[1..] == a;
    }
  }

  /** Joining separator-free pieces and splitting again gives back the pieces. */
  lemma {:induction false} SplitJoin(parts: seq<string>, sep: char)
    requires |parts| >= 1
    requires forall i :: 0 <= i < |parts| ==> sep !in parts[i]
    ensures Split(Join(parts, sep), sep) == parts
    decreases |parts|
  {
    if |parts| == 1 {
      SplitNoSep(parts[0], sep);
    } else {
      SplitJoin(parts[1..], sep);
      SplitAfterPiece(parts[0], sep, Join(parts[1..], sep));
      assert [parts[0]] + parts[1..] == parts;
    }
  }

  /** Index of the first `c` in `s`, or `|s|` when there is none. */
  function IndexOf(s: string, c: char): (i: nat)
    ensures i <= |s|
    ensures i < |s| ==> s[i] == c
    ensures c !in s[..i]
  {
    if s == [] then 0
    else if s[0] == c then 0
    else
      var j := IndexOf(s[1..], c);
      assert s[..j + 1] == [s[0]] + s[1..][..j];
      j + 1
  }

  /** A terminated line without its line feed: a carriage return before the
      line feed is dropped. */
  function StripCr(s: string): string {
    if s != [] && s[|s| - 1] == '\r' then s[..|s| - 1] else s
  }

  /** The first position at or after `i` holding `c`, or `|s|`. */
  function FindFrom(s: string, c: char, i: nat): (j: nat)
    requires i <= |s|
    ensures i <= j <= |s|
    ensures j < |s| ==> s[j] == c
    decreases |s| - i
  {
    if i == |s| || s[i] == c then i else FindFrom(s, c, i + 1)
  }

  /** `FindFrom` passes over no `c`. */
  lemma {:induction false} FindFromSkips(s: string, c: char, i: nat)
    requires i <= |s|
    ensures forall k :: i <= k < FindFrom(s, c, i) ==> s[k] != c
    decreases |s| - i
  {
    if i < |s| && s[i] != c {
      FindFromSkips(s, c, i + 1);
    }
  }

  /** `BufRead::lines`: lines end at `\n`, and a carriage return just before
      that line feed is dropped too.  The last line need not be terminated,
      and when it is not it is kept whole, a final carriage return
      included. */
  function Lines(s: string): seq<string> {
    LinesFrom(s, 0)
  }

  /** The lines of `s` from position `start` on. */
  function LinesFrom(s: string, start: nat): seq<string>
    requires start <= |s|
    decreases |s| - start
  {
    if start == |s| then []
    else
      var i := FindFrom(s, '\n', start);
      if i == |s| then [s[start..]]
      else [StripCr(s[start..i])] + LinesFrom(s, i + 1)
  }

  /** `FindFrom` is characterised by its postcondition and `FindFromSkips`. */
  lemma {:induction false} FindFromIs(s: string, c: char, i: nat, j: nat)
    requires i <= j <= |s|
    requires j < |s| ==> s[j] == c
    requires forall k :: i <= k < j ==> s[k] != c
    ensures FindFrom(s, c, i) == j
    decreases j - i
  {
    if i < j {
      FindFromIs(s, c, i + 1, j);
    }
  }

  /** Searching text that ends in `c` finds the same `c` whatever follows. */
  lemma FindFromPrefix(a: string, b: string, c: char, i: nat)
    requires i < |a| && a[|a| - 1] == c
    ensures FindFrom(a, c, i) < |a|
    ensures FindFrom(a + b, c, i) == FindFrom(a, c, i)
  {
    var j := FindFrom(a, c, i);
    FindBeforeEnd(a, c, i);
    FindFromSkips(a, c, i);
    FindFromIs(a + b, c, i, j);
  }

  /** Searching text that ends in `c` stops inside it. */
  lemma FindBeforeEnd(a: string, c: char, i: nat)
    requires i < |a| && a[|a| - 1] == c
    ensures FindFrom(a, c, i) < |a|
  {
    FindFromSkips(a, c, i);
  }

  /** Searching past a prefix is searching the rest, shifted. */
  lemma FindFromShift(a: string, b: string, c: char, i: nat)
    requires i <= |b|
    ensures FindFrom(a + b, c, |a| + i) == |a| + FindFrom(b, c, i)
  {
    var j := FindFrom(b, c, i);
    FindFromSkips(b, c, i);
    forall k | |a| + i <= k < |a| + j
      ensures (a + b)[k] != c
    {
      assert (a + b)[k] == b[k - |a|];
    }
    FindFromIs(a + b, c, |a| + i, |a| + j);
  }

  /** A terminated line at `start`, then the lines after its line feed. */
  lemma LineThenRest(s: string, start: nat, i: nat, line: string, rest: seq<string>)
    requires start <= i < |s| && FindFrom(s, '\n', start) == i
    requires line == StripCr(s[start..i]) && rest == LinesFrom(s, i + 1)
    ensures LinesFrom(s, start) == [line] + rest
  {
  }

  /** Nothing is left to read at the end of the text. */
  lemma NoLinesAtEnd(s: string, start: nat)
    requires start == |s|
    ensures LinesFrom(s, start) == []
  {
  }

  /** Two texts whose next lines agree, and whose lines after them agree,
      have the same lines. */
  lemma LineStepEq(s: string, t: string, p: nat, q: nat, i: nat, j: nat, i': nat, j': nat)
    requires p <= i < |s| && FindFrom(s, '\n', p) == i && i' == i + 1
    requires q <= j < |t| && FindFrom(t, '\n', q) == j && j' == j + 1
    requires s[p..i] == t[q..j]
    requires LinesFrom(s, i') == LinesFrom(t, j')
    ensures LinesFrom(s, p) == LinesFrom(t, q)
  {
    var line := StripCr(s[p..i]);
    var rest := LinesFrom(s, i');
    LineThenRest(s, p, i, line, rest);
    LineThenRest(t, q, j, line, rest);
  }

  /** Two texts that both end in the same unterminated line have the same
      lines from there. */
  lemma LastLineEq(s: string, t: string, p: nat, q: nat)
    requires p < |s| && FindFrom(s, '\n', p) == |s|
    requires q < |t| && FindFrom(t, '\n', q) == |t|
    requires s[p..] == t[q..]
    ensures LinesFrom(s, p) == LinesFrom(t, q)
  {
  }

  /** The lines past a prefix are the lines of the rest. */
  lemma {:induction false} LinesShift(a: string, b: string, k: nat)
    requires k <= |b|
    ensures LinesFrom(a + b, |a| + k) == LinesFrom(b, k)
    decreases |b| - k
  {
    if k == |b| {
      NoLinesAtEnd(a + b, |a| + k);
      NoLinesAtEnd(b, k);
    } else {
      var j := FindFrom(b, '\n', k);
      if j == |b| {
        LastLineShift(a, b, k);
      } else {
        var next := j + 1;
        LinesShift(a, b, next);
        LineShift(a, b, k, j, next);
      }
    }
  }

  /** The last, unterminated line past a prefix. */
  lemma LastLineShift(a: string, b: string, k: nat)
    requires k < |b| && FindFrom(b, '\n', k) == |b|
    ensures LinesFrom(a + b, |a| + k) == LinesFrom(b, k)
  {
    FindFromShift(a, b, '\n', k);
    Seqs.ShiftSuffix(a, b, k);
    LastLineEq(a + b, b, |a| + k, k);
  }

  /** A terminated line past a prefix, given the lines after it. */
  lemma LineShift(a: string, b: string, k: nat, j: nat, next: nat)
    requires k <= j < |b| && FindFrom(b, '\n', k) == j && next == j + 1
    requires LinesFrom(a + b, |a| + next) == LinesFrom(b, next)
    ensures LinesFrom(a + b, |a| + k) == LinesFrom(b, k)
  {
    var s := a + b;
    var p := |a| + k;
    var i := |a| + j;
    var after := |a| + next;
    FindFromShift(a, b, '\n', k);
    Seqs.ShiftSlice(a, b, k, j);
    LineStepEq(s, b, p, k, i, j, after, next);
  }

  /** From inside text made of whole lines, the lines of it and what follows
      are its remaining lines, then the lines past it. */
  lemma {:induction false} LinesFromPrefix(a: string, b: string, k: nat)
    requires k <= |a| && (a == [] || a[|a| - 1] == '\n')
    ensures LinesFrom(a + b, k) == LinesFrom(a, k) + LinesFrom(a + b, |a|)
    decreases |a| - k
  {
    if k == |a| {
      NoLinesAtEnd(a, k);
    } else {
      var i := FindFrom(a, '\n', k);
      FindBeforeEnd(a, '\n', k);
      LinesFromPrefix(a, b, i + 1);
      LinePrefixStep(a, b, k, i);
    }
  }

  /** A line inside text made of whole lines, given the lines after it. */
  lemma LinePrefixStep(a: string, b: string, k: nat, i: nat)
    requires k <= i < |a| && a[|a| - 1] == '\n' && FindFrom(a, '\n', k) == i
    requires LinesFrom(a + b, i + 1) == LinesFrom(a, i + 1) + LinesFrom(a + b, |a|)
    ensures LinesFrom(a + b, k) == LinesFrom(a, k) + LinesFrom(a + b, |a|)
  {
    var line := StripCr(a[k..i]);
    var inner := LinesFrom(a, i + 1);
    var after := LinesFrom(a + b, |a|);
    FindFromPrefix(a, b, '\n', k);
    Seqs.PrefixSlice(a, b, k, i);
    LineThenRest(a + b, k, i, line, inner + after);
    LineThenRest(a, k, i, line, inner);
    Seqs.ConsAppend(line, inner, after);
  }

  /** Text made of whole lines reads as its lines followed by whatever comes
      after it. */
  lemma LinesConcat(a: string, b: string)
    requires a == [] || a[|a| - 1] == '\n'
    ensures Lines(a + b) == Lines(a) + Lines(b)
  {
    LinesFromPrefix(a, b, 0);
    LinesAfter(a, b);
  }

  /** The lines past a whole prefix are the lines of the rest. */
  lemma LinesAfter(a: string, b: string)
    ensures LinesFrom(a + b, |a|) == LinesFrom(b, 0)
  {
    LinesShift(a, b, 0);
  }

  /** A line with no line feed and no trailing carriage return reads back as
      itself. */
  lemma OneLine(e: string)
    requires '\n' !in e && (e == [] || e[|e| - 1] != '\r')
    ensures Lines(e + ['\n']) == [e]
  {
    var s := e + ['\n'];
    FindFromIs(s, '\n', 0, |e|);
    assert s[0..|e|] == e;
    LineThenRest(s, 0, |e|, e, []);
  }

  /** A last line with no line feed reads back whole, even when it ends with
      a carriage return. */
  lemma UnterminatedLine(e: string)
    requires e != [] && '\n' !in e
    ensures Lines(e) == [e]
  {
    FindFromIs(e, '\n', 0, |e|);
    assert e[0..] == e;
  }

  /** A carriage return is dropped before a line feed and kept at the very
      end. */
  lemma CarriageReturns()
    ensures Lines("a\r\n") == ["a"]
    ensures Lines("a\r") == ["a\r"]
  {
    var crlf := "a\r\n";
    FindFromIs(crlf, '\n', 0, 2);
    assert StripCr(crlf[0..2]) == "a";
    LineThenRest(crlf, 0, 2, "a", []);
    UnterminatedLine("a\r");
  }

  /** `s` occurs in `buf` at `pos`, stated character by character. */
  predicate At(buf: string, pos: nat, s: string)
    decreases |s|
  {
    && pos + |s| <= |buf|
    && (s != [] ==> buf[pos] == s[0] && At(buf, pos + 1, s[1..]))
  }

  lemma {:induction false} AtChar(buf: string, pos: nat, s: string, k: nat)
    requires At(buf, pos, s) && k < |s|
    ensures pos + |s| <= |buf| && buf[pos + k] == s[k]
    decreases |s|
  {
    if k > 0 {
      AtChar(buf, pos + 1, s[1..], k - 1);
    } else if |s| > 1 {
      AtChar(buf, pos + 1, s[1..], 0);
    }
  }

  lemma {:induction false} AtConcat(buf: string, pos: nat, a: string, b: string)
    requires At(buf, pos, a + b)
    ensures At(buf, pos, a) && At(buf, pos + |a|, b)
    decreases |a|
  {
    if a == [] {
      assert a + b == b;
    } else {
      assert (a + b)[0] == a[0];
      assert (a + b)[1..] == a[1..] + b;
      AtConcat(buf, pos + 1, a[1..], b);
    }
  }

  lemma {:induction false} AtSlice(buf: string, pos: nat, s: string)
    requires At(buf, pos, s)
    ensures pos + |s| <= |buf| && buf[pos..pos + |s|] == s
    decreases |s|
  {
    if s != [] {
      AtSlice(buf, pos + 1, s[1..]);
    }
  }

  lemma {:induction false} AtSuffix(buf: string, pos: nat)
    requires pos <= |buf|
    ensures At(buf, pos, buf[pos..])
    decreases |buf| - pos
  {
    if pos < |buf| {
      assert buf[pos..][1..] == buf[pos + 1..];
      AtSuffix(buf, pos + 1);
    }
  }

  lemma AtWhole(buf: string)
    ensures At(buf, 0, buf)
  {
    AtSuffix(buf, 0);
    assert buf[0..] == buf;
  }

  /** Text made of a prefix, one character at `mid` and a suffix from
      `next`, read part by part. */
  lemma AtSplit(buf: string, pos: nat, mid: nat, next: nat, a: string, c: char, b: string)
    requires At(buf, pos, a + [c] + b)
    requires mid == pos + |a| && next == mid + 1
    ensures At(buf, pos, a) && mid < |buf| && buf[mid] == c
    ensures At(buf, next, b) && next + |b| == pos + |a + [c] + b|
  {
    assert a + [c] + b == a + ([c] + b);
    AtConcat(buf, pos, a, [c] + b);
    AtConcat(buf, mid, [c], b);
    AtChar(buf, mid, [c], 0);
  }

  /** Text made of a prefix, a middle part at `mid` and a suffix from
      `next`, read part by part. */
  lemma AtParts(buf: string, pos: nat, mid: nat, next: nat, a: string, g: string, b: string)
    requires At(buf, pos, a + g + b)
    requires mid == pos + |a| && next == mid + |g|
    ensures At(buf, pos, a) && At(buf, mid, g)
    ensures At(buf, next, b) && next + |b| == pos + |a + g + b|
  {
    assert a + g + b == a + (g + b);
    AtConcat(buf, pos, a, g + b);
    AtConcat(buf, mid, g, b);
  }
}
