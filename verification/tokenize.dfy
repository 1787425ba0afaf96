/** The single-line tokenizer of `src/tokenize.rs`: a left-to-right scan over
    the trimmed input that dispatches on the current character to one of four
    fragment readers (bare word, single quote, double quote, backslash) and
    glues fragments into tokens until a reader reports that the token is
    finished.  `&`, `|` and `;` are emitted as one-character tokens.

    The Rust code guards its helpers with `debug_assert`s and indexes one past
    a trailing backslash; the model returns `None` wherever the code would
    panic, so every input has a defined outcome. */
module Tokenizer {
  import opened Results
  import Text

  /** SPECIAL_CHARS: characters that start a quoted or escaped fragment. */
  predicate IsSpecial(c: char) {
    c == '\'' || c == '"' || c == '\\'
  }

  /** TOKEN_END_CHARS: characters emitted as tokens of their own. */
  predicate IsSeparator(c: char) {
    c == '&' || c == '|' || c == ';'
  }

  /** Characters a bare word is made of. */
  predicate IsBare(c: char) {
    !Text.IsWhitespace(c) && !IsSpecial(c) && !IsSeparator(c)
  }

  predicate AllBare(s: string) {
    forall k :: 0 <= k < |s| ==> IsBare(s[k])
  }

  /** Whether the token being built ends after this fragment. */
  datatype Status = Finish | Continue

  /** What one fragment reader returns: the status, the text it contributes
      and how many characters of the buffer it consumed. */
  datatype Fragment = Fragment(status: Status, part: string, consumed: nat)

  /** The first position at or after `i` that is not whitespace. */
  function SkipWhitespace(buf: string, i: nat): (j: nat)
    requires i <= |buf|
    ensures i <= j <= |buf|
    decreases |buf| - i
  {
    if i < |buf| && Text.IsWhitespace(buf[i]) then SkipWhitespace(buf, i + 1) else i
  }

  /** `SkipWhitespace` stops at the first non-whitespace character. */
  lemma {:induction false} SkipWhitespaceSpec(buf: string, i: nat)
    requires i <= |buf|
    ensures var j := SkipWhitespace(buf, i);
      && (forall k :: i <= k < j ==> Text.IsWhitespace(buf[k]))
      && (j < |buf| ==> !Text.IsWhitespace(buf[j]))
    decreases |buf| - i
  {
    if i < |buf| && Text.IsWhitespace(buf[i]) {
      SkipWhitespaceSpec(buf, i + 1);
    }
  }

  /** A run of whitespace laid out at `i` and not followed by more is
      skipped to its end. */
  lemma {:induction false} SkipRun(buf: string, i: nat, g: string)
    requires Text.At(buf, i, g) && Text.AllWhitespace(g)
    requires i + |g| < |buf| ==> !Text.IsWhitespace(buf[i + |g|])
    ensures SkipWhitespace(buf, i) == i + |g|
    decreases |g|
  {
    if g != [] {
      assert Text.IsWhitespace(g[0]);
      SkipRun(buf, i + 1, g[1..]);
    }
  }

  /** The first position at or after `i` that does not hold a bare character. */
  function ScanBare(buf: string, i: nat): (j: nat)
    requires i <= |buf|
    ensures i <= j <= |buf|
    decreases |buf| - i
  {
    if i < |buf| && IsBare(buf[i]) then ScanBare(buf, i + 1) else i
  }

  /** `ScanBare` stops at the first character that is not bare. */
  lemma {:induction false} ScanBareSpec(buf: string, i: nat)
    requires i <= |buf|
    ensures var j := ScanBare(buf, i);
      && (forall k :: i <= k < j ==> IsBare(buf[k]))
      && (j < |buf| ==> !IsBare(buf[j]))
    decreases |buf| - i
  {
    if i < |buf| && IsBare(buf[i]) {
      ScanBareSpec(buf, i + 1);
    }
  }

  /** `parse_native`: skip whitespace, read a run of bare characters, and
      finish the token (consuming the whitespace after it) unless a quote or
      backslash follows directly. */
  function ParseNative(buf: string, start: nat): (f: Fragment)
    requires start < |buf|
    ensures start + f.consumed <= |buf|
    ensures !IsSpecial(buf[start]) && !IsSeparator(buf[start]) ==> f.consumed >= 1
  {
    var a := SkipWhitespace(buf, start);
    var b := ScanBare(buf, a);
    if b < |buf| && IsSpecial(buf[b]) then
      Fragment(Continue, buf[a..b], b - start)
    else
      var e := SkipWhitespace(buf, b);
      Fragment(Finish, buf[a..b], e - start)
  }

  /** What `parse_native` reads: after the leading whitespace, the longest run
      of bare characters.  The token continues exactly when a quote or
      backslash follows the run; otherwise the whitespace after the run is
      consumed as well. */
  lemma ParseNativeSpec(buf: string, start: nat)
    requires start < |buf|
    ensures var f := ParseNative(buf, start);
      var a := SkipWhitespace(buf, start);
      && AllBare(f.part)
      && Text.AllWhitespace(buf[start..a])
      && a + |f.part| <= |buf|
      && f.part == buf[a..a + |f.part|]
      && (a + |f.part| < |buf| ==> !IsBare(buf[a + |f.part|]))
      && (f.status == Continue <==> a + |f.part| < |buf| && IsSpecial(buf[a + |f.part|]))
      && (f.status == Continue ==> start + f.consumed == a + |f.part|)
      && (f.status == Finish ==>
            && a + |f.part| <= start + f.consumed
            && Text.AllWhitespace(buf[a + |f.part|..start + f.consumed])
            && (start + f.consumed < |buf| ==> !Text.IsWhitespace(buf[start + f.consumed])))
  {
    var a := SkipWhitespace(buf, start);
    var b := ScanBare(buf, a);
    SkipWhitespaceSpec(buf, start);
    ScanBareSpec(buf, a);
    if !(b < |buf| && IsSpecial(buf[b])) {
      SkipWhitespaceSpec(buf, b);
    }
  }

  /** Whether a closing quote at `close` ends the token: it does when the
      buffer ends there or whitespace follows. */
  function StatusAfterQuote(buf: string, close: nat): Status {
    if close + 1 >= |buf| || Text.IsWhitespace(buf[close + 1]) then Finish else Continue
  }

  /** `parse_single_quote`: everything up to the next `'` is copied verbatim.
      Without a closing quote the rest of the buffer is the fragment and the
      token stays open. */
  function ParseSingleQuote(buf: string, start: nat): (f: Fragment)
    requires start + 1 < |buf| && buf[start] == '\''
    ensures start + 1 + |f.part| <= |buf|
    ensures f.part == buf[start + 1..start + 1 + |f.part|]
    ensures '\'' !in f.part
    ensures var close := start + 1 + |f.part|;
      if close < |buf| then
        buf[close] == '\'' && f.consumed == |f.part| + 2 && f.status == StatusAfterQuote(buf, close)
      else
        f.consumed == |f.part| + 1 && f.status == Continue
  {
    var close := start + 1 + Text.IndexOf(buf[start + 1..], '\'');
    var part := buf[start + 1..close];
    if close < |buf| then Fragment(StatusAfterQuote(buf, close), part, close - start + 1)
    else Fragment(Continue, part, close - start)
  }

  /** `parse_backslash`: the escaped character, de-escaped according to the
      context.  An escaped newline contributes nothing; inside double quotes
      only `\\` and `\"` lose their backslash. */
  function ParseBackslash(buf: string, start: nat, inDoubleQuote: bool): (f: Fragment)
    requires start + 1 < |buf| && buf[start] == '\\'
    ensures f.consumed == 2
    ensures f.part == EscapeValue(buf[start + 1], inDoubleQuote)
    ensures f.status == Finish <==>
      start + 2 == |buf| || (Text.IsWhitespace(buf[start + 2]) && !inDoubleQuote)
  {
    var status :=
      if start + 2 == |buf| || (Text.IsWhitespace(buf[start + 2]) && !inDoubleQuote) then Finish
      else Continue;
    Fragment(status, EscapeValue(buf[start + 1], inDoubleQuote), 2)
  }

  /** The text a backslash followed by `c` stands for. */
  function EscapeValue(c: char, inDoubleQuote: bool): (r: string)
    ensures c == '\n' ==> r == []
    ensures c != '\n' && !inDoubleQuote ==> r == [c]
    ensures c != '\n' && inDoubleQuote ==> r == if c == '\\' || c == '"' then [c] else ['\\', c]
  {
    if c == '\n' then []
    else if inDoubleQuote then
      match c
      case '\\' => "\\"
      case '"' => "\""
      case _ => ['\\', c]
    else [c]
  }

  /** The body of a double-quoted fragment from `j`: the de-escaped text and
      the position of the closing quote (or the end of the buffer).  `None`
      when a backslash is the last character, where the Rust code indexes
      past the end. */
  function DoubleQuoteBody(buf: string, j: nat): (r: Option<(string, nat)>)
    requires j <= |buf|
    ensures r.Some? ==> j <= r.value.1 <= |buf|
    ensures r.Some? && r.value.1 < |buf| ==> buf[r.value.1] == '"'
    ensures r.None? ==> |buf| > 0 && buf[|buf| - 1] == '\\'
    decreases |buf| - j
  {
    if j == |buf| || buf[j] == '"' then Some(([], j))
    else if buf[j] == '\\' then
      if j + 1 == |buf| then None
      else match DoubleQuoteBody(buf, j + 2)
        case None => None
        case Some((t, close)) => Some((ParseBackslash(buf, j, true).part + t, close))
    else match DoubleQuoteBody(buf, j + 1)
      case None => None
      case Some((t, close)) => Some(([buf[j]] + t, close))
  }

  /** `parse_double_quote`. */
  function ParseDoubleQuote(buf: string, start: nat): (r: Option<Fragment>)
    requires start + 1 < |buf| && buf[start] == '"'
    ensures r.Some? ==> 1 <= r.value.consumed <= |buf| - start
    ensures r.None? ==> buf[|buf| - 1] == '\\'
  {
    match DoubleQuoteBody(buf, start + 1)
    case None => None
    case Some((t, close)) =>
      if close < |buf| then Some(Fragment(StatusAfterQuote(buf, close), t, close - start + 1))
      else Some(Fragment(Continue, t, close - start))
  }

  /** The dispatch of the scan loop for a character that is not a separator.
      `None` where the selected reader's debug assertion (no quote or
      backslash as the last character) fails. */
  function Step(buf: string, pos: nat): (r: Option<Fragment>)
    requires pos < |buf| && !IsSeparator(buf[pos])
    ensures r.Some? ==> 1 <= r.value.consumed <= |buf| - pos
    ensures r.None? ==> IsSpecial(buf[|buf| - 1])
    ensures IsSpecial(buf[pos]) && pos + 1 == |buf| ==> r.None?
  {
    var c := buf[pos];
    if IsSpecial(c) && pos + 1 == |buf| then None
    else if c == '\'' then Some(ParseSingleQuote(buf, pos))
    else if c == '"' then ParseDoubleQuote(buf, pos)
    else if c == '\\' then Some(ParseBackslash(buf, pos, false))
    else Some(ParseNative(buf, pos))
  }

  /** Push the pending token, if any. */
  function Flush(acc: seq<string>, cur: string): seq<string> {
    if cur != [] then acc + [cur] else acc
  }

  /** The loop of `tokenize` from position `pos`, with pending token `cur` and
      emitted tokens `acc`.  With `separatorEndsToken` false this is the code
      as written: a separator is appended to the pending token before it is
      emitted.  With it true the pending token is emitted first, which is the
      corrected behaviour (see the Findings section of the README). */
  function Scan(buf: string, pos: nat, cur: string, acc: seq<string>, separatorEndsToken: bool)
    : (r: Option<seq<string>>)
    requires pos <= |buf|
    ensures r.None? ==> |buf| > 0 && IsSpecial(buf[|buf| - 1])
    decreases |buf| - pos
  {
    if pos == |buf| then Some(Flush(acc, cur))
    else
      var c := buf[pos];
      if IsSeparator(c) then
        if separatorEndsToken then Scan(buf, pos + 1, [], Flush(acc, cur) + [[c]], separatorEndsToken)
        else Scan(buf, pos + 1, [], acc + [cur + [c]], separatorEndsToken)
      else
        match Step(buf, pos)
        case None => None
        case Some(f) =>
          var next := cur + f.part;
          if f.status == Finish && next != [] then
            Scan(buf, pos + f.consumed, [], acc + [next], separatorEndsToken)
          else
            Scan(buf, pos + f.consumed, next, acc, separatorEndsToken)
  }

  /** `tokenize` as written.  `None` models the panics: the debug assertion
      that the input does not end with a backslash, and the helpers' ones. */
  function Tokenize(input: string): (r: Option<seq<string>>)
    ensures input != [] && input[|input| - 1] == '\\' ==> r.None?
  {
    if input != [] && input[|input| - 1] == '\\' then None
    else Scan(Text.Trim(input), 0, [], [], false)
  }

  /** `tokenize` with separators always ending the pending token. */
  function TokenizeFixed(input: string): (r: Option<seq<string>>)
    ensures input != [] && input[|input| - 1] == '\\' ==> r.None?
  {
    if input != [] && input[|input| - 1] == '\\' then None
    else Scan(Text.Trim(input), 0, [], [], true)
  }

  predicate NonEmptyTokens(ts: seq<string>) {
    forall i :: 0 <= i < |ts| ==> ts[i] != []
  }

  /** One turn of the scan loop on a separator: the scan goes on at `next`
      with `acc'` emitted. */
  lemma ScanSeparatorStep(buf: string, pos: nat, next: nat, cur: string, acc: seq<string>,
                          acc': seq<string>, fixed: bool)
    requires pos < |buf| && IsSeparator(buf[pos]) && next == pos + 1
    requires acc' == if fixed then Flush(acc, cur) + [[buf[pos]]] else acc + [cur + [buf[pos]]]
    ensures Scan(buf, pos, cur, acc, fixed) == Scan(buf, next, [], acc', fixed)
  {
  }

  /** One turn of the scan loop on a fragment the reader returns; the loop
      resumes at `next`. */
  lemma ScanFragmentStep(buf: string, pos: nat, next: nat, f: Fragment, cur: string, acc: seq<string>, fixed: bool)
    requires pos < |buf| && !IsSeparator(buf[pos]) && Step(buf, pos) == Some(f)
    requires next == pos + f.consumed
    ensures Scan(buf, pos, cur, acc, fixed)
         == if f.status == Finish && cur + f.part != [] then Scan(buf, next, [], acc + [cur + f.part], fixed)
            else Scan(buf, next, cur + f.part, acc, fixed)
  {
  }

  /** A fragment that does not end a non-empty token only grows the pending
      token to `grown`. */
  lemma ScanGrows(buf: string, pos: nat, next: nat, f: Fragment, cur: string, grown: string,
                  acc: seq<string>, fixed: bool)
    requires pos < |buf| && !IsSeparator(buf[pos]) && Step(buf, pos) == Some(f)
    requires next == pos + f.consumed && grown == cur + f.part
    requires f.status == Continue || grown == []
    ensures Scan(buf, pos, cur, acc, fixed) == Scan(buf, next, grown, acc, fixed)
  {
    ScanFragmentStep(buf, pos, next, f, cur, acc, fixed);
  }

  /** A fragment that ends the token emits the pending token, if any, giving
      `acc'`. */
  lemma ScanEmits(buf: string, pos: nat, next: nat, f: Fragment, cur: string,
                  acc: seq<string>, acc': seq<string>, fixed: bool)
    requires pos < |buf| && !IsSeparator(buf[pos]) && Step(buf, pos) == Some(f)
    requires next == pos + f.consumed && f.status == Finish
    requires acc' == Flush(acc, cur + f.part)
    ensures Scan(buf, pos, cur, acc, fixed) == Scan(buf, next, [], acc', fixed)
  {
    ScanFragmentStep(buf, pos, next, f, cur, acc, fixed);
    if cur + f.part == [] {
      assert acc' == acc;
    } else {
      assert acc' == acc + [cur + f.part];
    }
  }

  /** The scan never emits an empty token. */
  lemma {:induction false} ScanNonEmpty(buf: string, pos: nat, cur: string, acc: seq<string>, fixed: bool)
    requires pos <= |buf|
    requires NonEmptyTokens(acc)
    ensures Scan(buf, pos, cur, acc, fixed).Some? ==> NonEmptyTokens(Scan(buf, pos, cur, acc, fixed).value)
    decreases |buf| - pos
  {
    if pos == |buf| {
      assert Scan(buf, pos, cur, acc, fixed) == Some(Flush(acc, cur));
    } else if IsSeparator(buf[pos]) {
      var c := buf[pos];
      var next := pos + 1;
      var acc' := if fixed then Flush(acc, cur) + [[c]] else acc + [cur + [c]];
      assert NonEmptyTokens(acc');
      ScanSeparatorStep(buf, pos, next, cur, acc, acc', fixed);
      ScanNonEmpty(buf, next, [], acc', fixed);
    } else if Step(buf, pos).Some? {
      var f := Step(buf, pos).value;
      var next := pos + f.consumed;
      var grown := cur + f.part;
      if f.status == Finish && grown != [] {
        var acc' := Flush(acc, grown);
        assert acc' == acc + [grown];
        assert NonEmptyTokens(acc');
        ScanEmits(buf, pos, next, f, cur, acc, acc', fixed);
        ScanNonEmpty(buf, next, [], acc', fixed);
      } else {
        ScanGrows(buf, pos, next, f, cur, grown, acc, fixed);
        ScanNonEmpty(buf, next, grown, acc, fixed);
      }
    }
  }

  lemma ScanFromStartNonEmpty(buf: string, fixed: bool)
    ensures Scan(buf, 0, [], [], fixed).Some? ==> NonEmptyTokens(Scan(buf, 0, [], [], fixed).value)
  {
    ScanNonEmpty(buf, 0, [], [], fixed);
  }

  /** Every token `tokenize` emits is non-empty, so `''` or `""` on its own
      contributes nothing. */
  lemma TokensNonEmpty(input: string)
    ensures Tokenize(input).Some? ==> NonEmptyTokens(Tokenize(input).value)
  {
    if !(input != [] && input[|input| - 1] == '\\') {
      ScanFromStartNonEmpty(Text.Trim(input), false);
    }
  }

  /** The same for the corrected tokenizer. */
  lemma FixedTokensNonEmpty(input: string)
    ensures TokenizeFixed(input).Some? ==> NonEmptyTokens(TokenizeFixed(input).value)
  {
    if !(input != [] && input[|input| - 1] == '\\') {
      ScanFromStartNonEmpty(Text.Trim(input), true);
    }
  }

  /** The scan completes, and so terminates, whenever the trimmed input does
      not end with a quote or a backslash. */
  lemma TokenizeCompletes(input: string)
    requires Text.Trim(input) == [] || !IsSpecial(Text.Trim(input)[|Text.Trim(input)| - 1])
    requires input == [] || input[|input| - 1] != '\\'
    ensures Tokenize(input).Some?
  {
  }

  /** The same for the corrected tokenizer. */
  lemma FixedCompletes(input: string)
    requires Text.Trim(input) == [] || !IsSpecial(Text.Trim(input)[|Text.Trim(input)| - 1])
    requires input == [] || input[|input| - 1] != '\\'
    ensures TokenizeFixed(input).Some?
  {
  }
}
