/** A reference description of a command line as stages of words and
    redirects, and the proof that `parse_tokens` turns the tokens of such a
    line into the stages it describes.

    A stage's words are its arguments in order; its output and error go
    where the LAST redirect of that stream in the stage sends them, or to
    the terminal; a stage ended by `|` writes into a new pipe whatever its
    redirects said, and the next stage reads from that pipe. */
module PipelineRoundTrip {
  import opened Results
  import opened Pipeline

  datatype Item =
    | Arg(word: string)
    | ToFile(redirect: Redirect, path: string)
    | Dup(redirect: Redirect)

  /** A word is a token that is neither a redirect nor a separator. */
  predicate IsWord(w: string) {
    ExtractRedirect(w).None? && w !in EndTokens
  }

  /** A well-formed item; a redirect file must be one that opens. */
  predicate ValidItem(it: Item, unopenable: set<string>) {
    match it
    case Arg(w) => IsWord(w)
    case ToFile(r, path) => ValidRedirect(r) && r.target == "" && path !in unopenable
    case Dup(r) => ValidRedirect(r) && r.target != ""
  }

  predicate ValidItems(items: seq<Item>, unopenable: set<string>) {
    forall i :: 0 <= i < |items| ==> ValidItem(items[i], unopenable)
  }

  function RenderItem(it: Item): seq<string> {
    match it
    case Arg(w) => [w]
    case ToFile(r, path) => [RenderRedirect(r), path]
    case Dup(r) => [RenderRedirect(r)]
  }

  function RenderItems(items: seq<Item>): seq<string>
    decreases |items|
  {
    if items == [] then [] else RenderItem(items[0]) + RenderItems(items[1..])
  }

  /** The words of a stage, in order. */
  function Words(items: seq<Item>): seq<string>
    decreases |items|
  {
    if items == [] then []
    else (if items[0].Arg? then [items[0].word] else []) + Words(items[1..])
  }

  /** Where a redirect item sends its stream. */
  function ItemWriter(it: Item): Writer
    requires !it.Arg?
  {
    match it
    case ToFile(r, path) => File(path, r.op == ">>")
    case Dup(r) => if r.target == "1" then Stdout else Stderr
  }

  /** The writer of the last redirect of stream `s` among `items`. */
  function LastWriter(items: seq<Item>, s: Stream): Option<Writer>
    decreases |items|
  {
    if items == [] then None
    else
      var later := LastWriter(items[1..], s);
      if later.Some? then later
      else if !items[0].Arg? && StreamOf(items[0].redirect.origin) == s then Some(ItemWriter(items[0]))
      else None
  }

  /** A stage of the line and whether `|` (rather than `;`) ends it. */
  datatype Segment = Segment(items: seq<Item>, pipe: bool)

  /** Every ended stage is well formed, has words, and its words make a
      command. */
  predicate ValidSegments(segs: seq<Segment>, rejects: set<seq<string>>, unopenable: set<string>) {
    forall i :: 0 <= i < |segs| ==>
      ValidItems(segs[i].items, unopenable) && Words(segs[i].items) != [] && Words(segs[i].items) !in rejects
  }

  /** The words after the last separator, if any, make a command. */
  predicate ValidTrailing(trailing: seq<Item>, rejects: set<seq<string>>, unopenable: set<string>) {
    ValidItems(trailing, unopenable) && (Words(trailing) == [] || Words(trailing) !in rejects)
  }

  function Separator(pipe: bool): string {
    if pipe then "|" else ";"
  }

  function RenderSegments(segs: seq<Segment>): seq<string>
    decreases |segs|
  {
    if segs == [] then []
    else RenderItems(segs[0].items) + [Separator(segs[0].pipe)] + RenderSegments(segs[1..])
  }

  /** The tokens of a line: its ended stages, then the words and redirects
      after the last separator. */
  function RenderLine(segs: seq<Segment>, trailing: seq<Item>): seq<string> {
    RenderSegments(segs) + RenderItems(trailing)
  }

  /** The record of one ended stage read from `reader`, with `n` the number
      its pipe would get. */
  function SegmentStage(s: Segment, reader: Reader, n: nat): Stage {
    Stage(Words(s.items), reader,
          if s.pipe then PipeWriter(n) else WriterOr(LastWriter(s.items, ToStdout), Stdout),
          WriterOr(LastWriter(s.items, ToStderr), Stderr), !s.pipe)
  }

  /** The stages a line describes, read from `reader` with pipes numbered
      from `n`. */
  function Expected(segs: seq<Segment>, trailing: seq<Item>, reader: Reader, n: nat): seq<Stage>
    decreases |segs|
  {
    if segs == [] then
      var words := Words(trailing);
      if words == [] then []
      else [Stage(words, reader, WriterOr(LastWriter(trailing, ToStdout), Stdout),
                  WriterOr(LastWriter(trailing, ToStderr), Stderr), true)]
    else
      var s := segs[0];
      [SegmentStage(s, reader, n)]
        + Expected(segs[1..], trailing, if s.pipe then PipeReader(n) else Stdin, if s.pipe then n + 1 else n)
  }

  // ---------------------------------------------------------------------
  // Items

  /** One item's effect on the stage being collected. */
  function ApplyItem(p: Pending, it: Item): Pending {
    match it
    case Arg(w) => p.(args := p.args + [w])
    case _ =>
      if StreamOf(it.redirect.origin) == ToStdout then p.(output := Some(ItemWriter(it)))
      else p.(error := Some(ItemWriter(it)))
  }

  function ApplyItems(p: Pending, items: seq<Item>): Pending
    decreases |items|
  {
    if items == [] then p else ApplyItems(ApplyItem(p, items[0]), items[1..])
  }

  /** Separators are not redirects. */
  lemma SeparatorNotRedirect(sep: string)
    requires sep in EndTokens
    ensures ExtractRedirect(sep).None?
  {
  }

  lemma ItemStep(it: Item, rest: seq<string>, done: seq<Stage>, p: Pending,
                 rejects: set<seq<string>>, unopenable: set<string>)
    requires ValidItem(it, unopenable)
    ensures Go(RenderItem(it) + rest, done, p, rejects, unopenable)
         == Go(rest, done, ApplyItem(p, it), rejects, unopenable)
  {
    var toks := RenderItem(it) + rest;
    match it
    case Arg(w) =>
      assert toks[0] == w && toks[1..] == rest;
    case ToFile(r, path) =>
      assert toks == [RenderRedirect(r), path] + rest;
      FileRedirect(r, path, rest, unopenable);
      assert toks[2..] == rest;
    case Dup(r) =>
      assert toks == [RenderRedirect(r)] + rest;
      DuplicationRedirect(r, rest, unopenable);
      assert toks[1..] == rest;
  }

  lemma RenderItemsCons(items: seq<Item>, rest: seq<string>)
    requires items != []
    ensures RenderItems(items) + rest == RenderItem(items[0]) + (RenderItems(items[1..]) + rest)
  {
  }

  /** The items' tokens act one item at a time. */
  lemma {:induction false} ItemsFold(items: seq<Item>, rest: seq<string>, done: seq<Stage>, p: Pending,
                                     rejects: set<seq<string>>, unopenable: set<string>)
    requires ValidItems(items, unopenable)
    ensures Go(RenderItems(items) + rest, done, p, rejects, unopenable)
         == Go(rest, done, ApplyItems(p, items), rejects, unopenable)
    decreases |items|
  {
    if items == [] {
      assert RenderItems(items) + rest == rest;
    } else {
      RenderItemsCons(items, rest);
      assert ValidItem(items[0], unopenable);
      ItemStep(items[0], RenderItems(items[1..]) + rest, done, p, rejects, unopenable);
      ItemsFold(items[1..], rest, done, ApplyItem(p, items[0]), rejects, unopenable);
    }
  }

  /** A later redirect replaces an earlier one. */
  function Override(earlier: Option<Writer>, last: Option<Writer>): Option<Writer> {
    if last.Some? then last else earlier
  }

  /** Collecting items appends their words and lets the last redirect of
      each stream win; the input and the pipe counter are untouched. */
  lemma {:induction false} ApplyItemsSpec(p: Pending, items: seq<Item>)
    ensures var q := ApplyItems(p, items);
      && q.args == p.args + Words(items)
      && q.output == Override(p.output, LastWriter(items, ToStdout))
      && q.error == Override(p.error, LastWriter(items, ToStderr))
      && q.reader == p.reader && q.nextPipe == p.nextPipe
    decreases |items|
  {
    if items != [] {
      ApplyItemsSpec(ApplyItem(p, items[0]), items[1..]);
      assert p.args + Words(items) == p.args + (if items[0].Arg? then [items[0].word] else []) + Words(items[1..]);
    }
  }

  // ---------------------------------------------------------------------
  // Stages

  /** The pending stage after a separator: no words, no redirects. */
  function Opened(reader: Option<Reader>, n: nat): Pending {
    Pending([], reader, None, None, n)
  }

  /** The pending stage after the separator that ends `s`, whose pipe, if
      any, has number `n`. */
  function NextPending(s: Segment, n: nat): Pending {
    if s.pipe then Opened(Some(PipeReader(n)), n + 1) else Opened(None, n)
  }

  /** The record of the stage a separator closes, as the loop builds it. */
  function Closed(q: Pending, pipe: bool): Stage {
    Stage(q.args, ReaderOr(q.reader), if pipe then PipeWriter(q.nextPipe) else WriterOr(q.output, Stdout),
          WriterOr(q.error, Stderr), !pipe)
  }

  /** The pending stage after a separator, as the loop builds it. */
  function Reopened(q: Pending, pipe: bool): Pending {
    Opened(if pipe then Some(PipeReader(q.nextPipe)) else None, if pipe then q.nextPipe + 1 else q.nextPipe)
  }

  /** A separator after accepted words closes the stage and opens the next
      one. */
  lemma SeparatorStep(pipe: bool, rest: seq<string>, done: seq<Stage>, q: Pending,
                      rejects: set<seq<string>>, unopenable: set<string>)
    requires q.args != [] && q.args !in rejects
    ensures Go([Separator(pipe)] + rest, done, q, rejects, unopenable)
         == Go(rest, done + [Closed(q, pipe)], Reopened(q, pipe), rejects, unopenable)
  {
    var sep := Separator(pipe);
    SeparatorNotRedirect(sep);
    assert ([sep] + rest)[0] == sep && ([sep] + rest)[1..] == rest;
  }

  /** The stage record built from a stage's collected items. */
  lemma StageOfItems(s: Segment, reader: Option<Reader>, n: nat)
    ensures var q := ApplyItems(Opened(reader, n), s.items);
      && q.args == Words(s.items)
      && Closed(q, s.pipe) == SegmentStage(s, ReaderOr(reader), n)
      && Reopened(q, s.pipe) == NextPending(s, n)
  {
    ApplyItemsSpec(Opened(reader, n), s.items);
    assert [] + Words(s.items) == Words(s.items);
  }

  /** The tokens of one ended stage add its stage record and open the next
      one. */
  lemma SegmentStep(s: Segment, rest: seq<string>, done: seq<Stage>, reader: Option<Reader>, n: nat,
                    rejects: set<seq<string>>, unopenable: set<string>)
    requires ValidItems(s.items, unopenable) && Words(s.items) != [] && Words(s.items) !in rejects
    ensures Go(RenderItems(s.items) + [Separator(s.pipe)] + rest, done, Opened(reader, n), rejects, unopenable)
         == Go(rest, done + [SegmentStage(s, ReaderOr(reader), n)], NextPending(s, n), rejects, unopenable)
  {
    var sep := Separator(s.pipe);
    var q := ApplyItems(Opened(reader, n), s.items);
    StageOfItems(s, reader, n);
    calc {
      Go(RenderItems(s.items) + [sep] + rest, done, Opened(reader, n), rejects, unopenable);
      { assert RenderItems(s.items) + [sep] + rest == RenderItems(s.items) + ([sep] + rest); }
      Go(RenderItems(s.items) + ([sep] + rest), done, Opened(reader, n), rejects, unopenable);
      { ItemsFold(s.items, [sep] + rest, done, Opened(reader, n), rejects, unopenable); }
      Go([sep] + rest, done, q, rejects, unopenable);
      { SeparatorStep(s.pipe, rest, done, q, rejects, unopenable); }
      Go(rest, done + [SegmentStage(s, ReaderOr(reader), n)], NextPending(s, n), rejects, unopenable);
    }
  }

  lemma RenderSegmentsCons(segs: seq<Segment>, tail: seq<string>)
    requires segs != []
    ensures RenderSegments(segs) + tail
         == RenderItems(segs[0].items) + [Separator(segs[0].pipe)] + (RenderSegments(segs[1..]) + tail)
  {
  }

  /** The trailing words and redirects make the last stage, if there are
      words. */
  lemma Trailing(trailing: seq<Item>, done: seq<Stage>, reader: Option<Reader>, n: nat,
                 rejects: set<seq<string>>, unopenable: set<string>)
    requires ValidTrailing(trailing, rejects, unopenable)
    ensures Go(RenderItems(trailing), done, Opened(reader, n), rejects, unopenable)
         == Success(done + Expected([], trailing, ReaderOr(reader), n))
  {
    assert RenderItems(trailing) + [] == RenderItems(trailing);
    ItemsFold(trailing, [], done, Opened(reader, n), rejects, unopenable);
    ApplyItemsSpec(Opened(reader, n), trailing);
    assert [] + Words(trailing) == Words(trailing);
    if Words(trailing) == [] {
      assert done + [] == done;
    }
  }

  lemma ValidSegmentsTail(segs: seq<Segment>, rejects: set<seq<string>>, unopenable: set<string>)
    requires segs != [] && ValidSegments(segs, rejects, unopenable)
    ensures ValidSegments(segs[1..], rejects, unopenable)
  {
    forall i | 0 <= i < |segs[1..]|
      ensures ValidItems(segs[1..][i].items, unopenable) && Words(segs[1..][i].items) != []
              && Words(segs[1..][i].items) !in rejects
    {
      assert segs[1..][i] == segs[i + 1];
    }
  }

  /** The stages of a line with an ended stage: that stage's record, then
      the rest read from where it leaves off. */
  lemma ExpectedCons(segs: seq<Segment>, trailing: seq<Item>, reader: Option<Reader>, n: nat)
    requires segs != []
    ensures Expected(segs, trailing, ReaderOr(reader), n)
         == [SegmentStage(segs[0], ReaderOr(reader), n)]
            + Expected(segs[1..], trailing, ReaderOr(NextPending(segs[0], n).reader), NextPending(segs[0], n).nextPipe)
  {
  }

  lemma StagesAppend(done: seq<Stage>, stage: Stage, later: seq<Stage>)
    ensures done + [stage] + later == done + ([stage] + later)
  {
  }

  lemma {:induction false} SegmentsFold(segs: seq<Segment>, trailing: seq<Item>, done: seq<Stage>,
                                        reader: Option<Reader>, n: nat,
                                        rejects: set<seq<string>>, unopenable: set<string>)
    requires ValidSegments(segs, rejects, unopenable) && ValidTrailing(trailing, rejects, unopenable)
    ensures Go(RenderLine(segs, trailing), done, Opened(reader, n), rejects, unopenable)
         == Success(done + Expected(segs, trailing, ReaderOr(reader), n))
    decreases |segs|
  {
    if segs == [] {
      assert RenderLine(segs, trailing) == RenderItems(trailing);
      Trailing(trailing, done, reader, n, rejects, unopenable);
    } else {
      var s := segs[0];
      var tail := RenderLine(segs[1..], trailing);
      var next := NextPending(s, n);
      var stage := SegmentStage(s, ReaderOr(reader), n);
      assert RenderLine(segs, trailing) == RenderItems(s.items) + [Separator(s.pipe)] + tail by {
        RenderSegmentsCons(segs, RenderItems(trailing));
      }
      assert ValidItems(s.items, unopenable) && Words(s.items) != [] && Words(s.items) !in rejects;
      SegmentStep(s, tail, done, reader, n, rejects, unopenable);
      ValidSegmentsTail(segs, rejects, unopenable);
      SegmentsFold(segs[1..], trailing, done + [stage], next.reader, next.nextPipe, rejects, unopenable);
      ExpectedCons(segs, trailing, reader, n);
      StagesAppend(done, stage, Expected(segs[1..], trailing, ReaderOr(next.reader), next.nextPipe));
    }
  }

  /** `parse_tokens` on the tokens of a line gives the line's stages: one per
      separator plus one for trailing words, in order, with the words,
      streams and waiting flags the line describes. */
  lemma ParseLine(segs: seq<Segment>, trailing: seq<Item>, rejects: set<seq<string>>, unopenable: set<string>)
    requires ValidSegments(segs, rejects, unopenable) && ValidTrailing(trailing, rejects, unopenable)
    ensures ParseTokens(RenderLine(segs, trailing), rejects, unopenable) == Success(Expected(segs, trailing, Stdin, 0))
  {
    SegmentsFold(segs, trailing, [], None, 0, rejects, unopenable);
    assert [] + Expected(segs, trailing, Stdin, 0) == Expected(segs, trailing, Stdin, 0);
  }

  // ---------------------------------------------------------------------
  // Errors

  /** `&`, `&&` and `||` after a stage's items stop the parse. */
  lemma UnsupportedSeparator(items: seq<Item>, sep: string, rest: seq<string>, done: seq<Stage>, p: Pending,
                             rejects: set<seq<string>>, unopenable: set<string>)
    requires ValidItems(items, unopenable) && sep in {"&", "&&", "||"}
    ensures Go(RenderItems(items) + [sep] + rest, done, p, rejects, unopenable) == Failure(Unsupported(sep))
  {
    assert RenderItems(items) + [sep] + rest == RenderItems(items) + ([sep] + rest);
    ItemsFold(items, [sep] + rest, done, p, rejects, unopenable);
    SeparatorNotRedirect(sep);
    assert ([sep] + rest)[0] == sep;
  }

  /** A separator with no word before it in its stage is an error. */
  lemma SeparatorWithoutWords(items: seq<Item>, pipe: bool, rest: seq<string>, done: seq<Stage>, p: Pending,
                              rejects: set<seq<string>>, unopenable: set<string>)
    requires ValidItems(items, unopenable) && p.args == [] && Words(items) == []
    ensures Go(RenderItems(items) + [Separator(pipe)] + rest, done, p, rejects, unopenable) == Failure(EmptyCommand)
  {
    var sep := Separator(pipe);
    assert RenderItems(items) + [sep] + rest == RenderItems(items) + ([sep] + rest);
    ItemsFold(items, [sep] + rest, done, p, rejects, unopenable);
    ApplyItemsSpec(p, items);
    assert [] + Words(items) == [];
    SeparatorNotRedirect(sep);
    assert ([sep] + rest)[0] == sep;
  }

  /** Words that `Command::parse` rejects stop the parse at their
      separator. */
  lemma RejectedCommand(items: seq<Item>, pipe: bool, rest: seq<string>, done: seq<Stage>, reader: Option<Reader>,
                        n: nat, rejects: set<seq<string>>, unopenable: set<string>)
    requires ValidItems(items, unopenable) && Words(items) != [] && Words(items) in rejects
    ensures Go(RenderItems(items) + [Separator(pipe)] + rest, done, Opened(reader, n), rejects, unopenable)
         == Failure(CommandFailed(Words(items)))
  {
    var sep := Separator(pipe);
    assert RenderItems(items) + [sep] + rest == RenderItems(items) + ([sep] + rest);
    ItemsFold(items, [sep] + rest, done, Opened(reader, n), rejects, unopenable);
    ApplyItemsSpec(Opened(reader, n), items);
    assert [] + Words(items) == Words(items);
    SeparatorNotRedirect(sep);
    assert ([sep] + rest)[0] == sep;
  }

  /** A file redirect as the very last token is a syntax error. */
  lemma RedirectWithoutFile(items: seq<Item>, r: Redirect, done: seq<Stage>, p: Pending,
                            rejects: set<seq<string>>, unopenable: set<string>)
    requires ValidItems(items, unopenable) && ValidRedirect(r) && r.target == ""
    ensures Go(RenderItems(items) + [RenderRedirect(r)], done, p, rejects, unopenable) == Failure(SyntaxError)
  {
    ItemsFold(items, [RenderRedirect(r)], done, p, rejects, unopenable);
    FileRedirectAtEnd(r, unopenable);
  }
}
