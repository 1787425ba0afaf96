/** A reference description of the lines `parse_input_from_reader` is meant
    to read.

    A line is a sequence of words separated by runs of whitespace, with
    optional whitespace before the first word and after the last one, where
    the line terminator goes.  A word is made of pieces written with no
    space between them: plain runs, and texts in single or double quotes
    (copied verbatim, so only the quote character itself is excluded).
    Reading the line yields the non-empty word values in order. */
module InputRender {
  import opened Text
  import opened InputParser
  import Tokenizer

  datatype Piece = Plain(text: string) | Quoted(quote: char, text: string)

  predicate IsQuote(c: char) {
    c == '\'' || c == '"'
  }

  function RenderPiece(p: Piece): string {
    match p
    case Plain(t) => t
    case Quoted(q, t) => [q] + t + [q]
  }

  predicate ValidPiece(p: Piece) {
    match p
    case Plain(t) => t != [] && AllPlain(t)
    case Quoted(q, t) => IsQuote(q) && q !in t
  }

  /** Pieces of one word: at least one, each valid, and no two plain runs in
      a row (they would read as one run). */
  predicate ValidWord(ps: seq<Piece>) {
    && |ps| >= 1
    && ValidPiece(ps[0])
    && (|ps| > 1 ==> !(ps[0].Plain? && ps[1].Plain?) && ValidWord(ps[1..]))
  }

  predicate ValidWords(ws: seq<seq<Piece>>) {
    |ws| >= 1 && ValidWord(ws[0]) && (|ws| > 1 ==> ValidWords(ws[1..]))
  }

  function RenderWord(ps: seq<Piece>): string {
    if ps == [] then [] else RenderPiece(ps[0]) + RenderWord(ps[1..])
  }

  /** The text a word stands for: its pieces' texts, concatenated. */
  function WordValue(ps: seq<Piece>): string {
    if ps == [] then [] else ps[0].text + WordValue(ps[1..])
  }

  /** Whitespace between two words: at least one character, all of them
      whitespace. */
  predicate Gap(g: string) {
    g != [] && AllWhitespace(g)
  }

  predicate Gaps(gaps: seq<string>) {
    forall i :: 0 <= i < |gaps| ==> Gap(gaps[i])
  }

  /** Words joined by the given gaps. */
  function RenderLine(ws: seq<seq<Piece>>, gaps: seq<string>): string
    requires |ws| >= 1 && |gaps| == |ws| - 1
  {
    if |ws| == 1 then RenderWord(ws[0]) else RenderWord(ws[0]) + gaps[0] + RenderLine(ws[1..], gaps[1..])
  }

  /** The tokens a word stands for: its value, unless that is empty. */
  function WordTokens(ps: seq<Piece>): seq<string> {
    if WordValue(ps) != [] then [WordValue(ps)] else []
  }

  function LineValues(ws: seq<seq<Piece>>): seq<string> {
    if ws == [] then [] else WordTokens(ws[0]) + LineValues(ws[1..])
  }

  /** A word that ends at `e` is followed by whitespace up to `k`, where
      the next word starts or the buffer ends; only at the end of the buffer
      may that whitespace be missing. */
  predicate WordEndsAt(buf: string, e: nat, k: nat) {
    e <= |buf| && Tokenizer.SkipWhitespace(buf, e) == k && (k == e ==> e == |buf|)
  }
}
