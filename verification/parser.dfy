/** Redirect recognition and stage grouping (`extract_redirect`,
    `parse_redirect`, `parse_tokens`): a token list becomes a list of stage
    records, each with its command, its input, its output and error
    destinations, and whether the shell waits for it (`use_pipe`).

    Streams are tags instead of OS handles.  The files that cannot be opened
    are the parameter `unopenable`, creating a pipe takes the next number
    from a counter, and a stage keeps the words its command is built from;
    the word lists that `Command::parse` rejects are the parameter
    `rejects`.  The loop walks the suffix of the
    token list that is still to be read; `parse_redirect(tokens, idx)` reads
    `tokens[idx..]` only, so this is the same loop. */
module Pipeline {
  import opened Results

  /** The pieces of a redirect token matched by `^([12]?)(>|>>)(?:&([12]))?$`;
      an absent piece is the empty string. */
  datatype Redirect = Redirect(origin: string, op: string, target: string)

  /** `RedirectIO`. */
  datatype Stream = ToStdout | ToStderr

  /** `Writer`, by kind. */
  datatype Writer = Stdout | Stderr | File(path: string, append: bool) | PipeWriter(id: nat)

  /** `Reader`, by kind. */
  datatype Reader = Stdin | PipeReader(id: nat)

  /** `CommandExecution`. */
  datatype Stage = Stage(command: seq<string>, reader: Reader, output: Writer, error: Writer, usePipe: bool)

  /** What `parse_tokens` can fail with: a file redirect with no file name,
      a file that cannot be opened, a separator that is still `todo!()`, a
      separator with no words before it (an index panic in the source), and
      a command whose words `Command::parse` rejects. */
  datatype ParseError =
    | SyntaxError
    | OpenFailed(path: string)
    | Unsupported(token: string)
    | EmptyCommand
    | CommandFailed(words: seq<string>)

  /** `COMMAND_END_TOKENS`. */
  const EndTokens: set<string> := {"&", "&&", "|", "||", ";"}

  predicate ValidRedirect(r: Redirect) {
    && r.origin in {"", "1", "2"}
    && r.op in {">", ">>"}
    && r.target in {"", "1", "2"}
  }

  /** The `&` and stream number of a duplication, or nothing. */
  function TargetSuffix(target: string): string {
    if target == "" then "" else "&" + target
  }

  /** The one token the pieces of a redirect come from. */
  function RenderRedirect(r: Redirect): string {
    r.origin + r.op + TargetSuffix(r.target)
  }

  /** The optional stream number a redirect token starts with. */
  function OriginOf(s: string): (o: string)
    ensures |o| <= |s| && o == s[..|o|]
  {
    if s != [] && (s[0] == '1' || s[0] == '2') then [s[0]] else []
  }

  /** The longest of `>>` and `>` that `rest` starts with, or nothing. */
  function OpOf(rest: string): (op: string)
    ensures |op| <= |rest| && op == rest[..|op|]
  {
    if |rest| >= 2 && rest[0] == '>' && rest[1] == '>' then ">>"
    else if rest != [] && rest[0] == '>' then ">"
    else ""
  }

  /** `extract_redirect`: an optional `1` or `2`, then `>` or `>>`, then
      optionally `&` and `1` or `2`, and nothing else.  Taking `>>` whenever
      it is there loses no match: after `>` the pattern needs `&` or the
      end. */
  function ExtractRedirect(s: string): (r: Option<Redirect>)
    ensures r.Some? ==> ValidRedirect(r.value)
  {
    var origin := OriginOf(s);
    var rest := s[|origin|..];
    var op := OpOf(rest);
    if op == "" then None
    else
      var tail := rest[|op|..];
      if tail == [] then Some(Redirect(origin, op, ""))
      else if |tail| == 2 && tail[0] == '&' && (tail[1] == '1' || tail[1] == '2') then
        Some(Redirect(origin, op, [tail[1]]))
      else None
  }

  /** What one redirect does: the stream it changes, where that stream now
      goes, and how many tokens it takes. */
  datatype Redirection = Redirection(stream: Stream, writer: Writer, consumed: nat)

  /** `parse_redirect` on the tokens from the current one on: a duplication
      takes one token, a file redirect takes the next token as its file name
      and appends exactly for `>>`. */
  function ParseRedirect(toks: seq<string>, unopenable: set<string>): (r: Result<Option<Redirection>, ParseError>)
    requires toks != []
    ensures r.Success? && r.value.Some? ==> 1 <= r.value.value.consumed <= |toks|
    ensures r.Success? && r.value.None? <==> ExtractRedirect(toks[0]).None?
  {
    match ExtractRedirect(toks[0])
    case None => Success(None)
    case Some(red) =>
      var stream := if red.origin == "2" then ToStderr else ToStdout;
      if red.target == "1" then Success(Some(Redirection(stream, Stdout, 1)))
      else if red.target == "2" then Success(Some(Redirection(stream, Stderr, 1)))
      else if |toks| == 1 then Failure(SyntaxError)
      else if toks[1] in unopenable then Failure(OpenFailed(toks[1]))
      else Success(Some(Redirection(stream, File(toks[1], red.op == ">>"), 2)))
  }

  /** The loop's variables for the stage being collected: its words, its
      input, the redirects seen so far, and the next pipe number. */
  datatype Pending = Pending(
    args: seq<string>,
    reader: Option<Reader>,
    output: Option<Writer>,
    error: Option<Writer>,
    nextPipe: nat)

  const Fresh := Pending([], None, None, None, 0)

  function ReaderOr(r: Option<Reader>): Reader {
    if r.Some? then r.value else Stdin
  }

  function WriterOr(w: Option<Writer>, default: Writer): Writer {
    if w.Some? then w.value else default
  }

  /** A redirect overrides the stream it names. */
  function Redirected(p: Pending, rd: Redirection): Pending {
    match rd.stream
    case ToStdout => p.(output := Some(rd.writer))
    case ToStderr => p.(error := Some(rd.writer))
  }

  /** The loop of `parse_tokens` over the remaining tokens: redirects first,
      then separators, then words.  At `|` the stage's output becomes the
      write end of a new pipe, whatever redirect came before, and the next
      stage reads its read end; at `;` the next stage reads standard input.
      After a separator the redirects start again from nothing. */
  function Go(toks: seq<string>, done: seq<Stage>, p: Pending,
              rejects: set<seq<string>>, unopenable: set<string>): Result<seq<Stage>, ParseError>
    decreases |toks|
  {
    if toks == [] then
      if p.args == [] then Success(done)
      else if p.args in rejects then Failure(CommandFailed(p.args))
      else Success(done + [Stage(p.args, ReaderOr(p.reader), WriterOr(p.output, Stdout), WriterOr(p.error, Stderr), true)])
    else
      match ParseRedirect(toks, unopenable)
      case Failure(e) => Failure(e)
      case Success(Some(rd)) => Go(toks[rd.consumed..], done, Redirected(p, rd), rejects, unopenable)
      case Success(None) =>
        if toks[0] !in EndTokens then Go(toks[1..], done, p.(args := p.args + [toks[0]]), rejects, unopenable)
        else if toks[0] != "|" && toks[0] != ";" then Failure(Unsupported(toks[0]))
        else
          var pipe := toks[0] == "|";
          var output := if pipe then Some(PipeWriter(p.nextPipe)) else p.output;
          if p.args == [] then Failure(EmptyCommand)
          else if p.args in rejects then Failure(CommandFailed(p.args))
          else
            var stage := Stage(p.args, ReaderOr(p.reader), WriterOr(output, Stdout), WriterOr(p.error, Stderr), !pipe);
            var next := Pending([], if pipe then Some(PipeReader(p.nextPipe)) else None, None, None,
                                if pipe then p.nextPipe + 1 else p.nextPipe);
            Go(toks[1..], done + [stage], next, rejects, unopenable)
  }

  /** `parse_tokens`. */
  function ParseTokens(tokens: seq<string>, rejects: set<seq<string>>, unopenable: set<string>): Result<seq<Stage>, ParseError>
  {
    Go(tokens, [], Fresh, rejects, unopenable)
  }

  // ---------------------------------------------------------------------
  // extract_redirect recognises exactly its regular language

  /** What may follow the operator is a duplication suffix. */
  lemma TailSound(tail: string)
    requires tail == [] || (|tail| == 2 && tail[0] == '&' && (tail[1] == '1' || tail[1] == '2'))
    ensures TargetSuffix(if tail == [] then "" else [tail[1]]) == tail
  {
  }

  /** Every accepted token is the rendering of the pieces returned. */
  lemma ExtractSound(s: string)
    ensures ExtractRedirect(s).Some? ==> RenderRedirect(ExtractRedirect(s).value) == s
  {
    if ExtractRedirect(s).Some? {
      var origin := OriginOf(s);
      var rest := s[|origin|..];
      var op := OpOf(rest);
      var tail := rest[|op|..];
      var r := ExtractRedirect(s).value;
      assert r == Redirect(origin, op, if tail == [] then "" else [tail[1]]);
      TailSound(tail);
      assert rest == op + tail;
      assert s == origin + rest;
      assert origin + rest == origin + op + tail;
    }
  }

  lemma OriginOfRendered(r: Redirect)
    requires ValidRedirect(r)
    ensures OriginOf(RenderRedirect(r)) == r.origin
    ensures RenderRedirect(r)[|r.origin|..] == r.op + TargetSuffix(r.target)
  {
    var s := RenderRedirect(r);
    assert s == r.origin + (r.op + TargetSuffix(r.target));
    if r.origin == "" {
      assert s[0] == '>';
    } else {
      assert s[0] == r.origin[0];
    }
  }

  lemma OpOfRendered(op: string, suffix: string)
    requires op in {">", ">>"} && (suffix == [] || suffix[0] == '&')
    ensures OpOf(op + suffix) == op && (op + suffix)[|op|..] == suffix
  {
    if op == ">" && suffix != [] {
      assert (op + suffix)[1] == suffix[0];
    }
  }

  /** Every token of the language is accepted, with its own pieces. */
  lemma ExtractComplete(r: Redirect)
    requires ValidRedirect(r)
    ensures ExtractRedirect(RenderRedirect(r)) == Some(r)
  {
    OriginOfRendered(r);
    OpOfRendered(r.op, TargetSuffix(r.target));
    if r.target != "" {
      assert TargetSuffix(r.target) == ['&', r.target[0]];
      assert [r.target[0]] == r.target;
    }
  }

  /** `&` with no stream number after it is not a redirect. */
  lemma DanglingAmpersand(origin: string, op: string)
    requires origin in {"", "1", "2"} && op in {">", ">>"}
    ensures ExtractRedirect(origin + op + "&") == None
  {
    var r := Redirect(origin, op, "");
    OriginOfRendered(r);
    var s := origin + op + "&";
    assert s == RenderRedirect(r) + "&";
    assert s[|origin|..] == op + "&" by {
      assert s == origin + (op + "&");
    }
    OpOfRendered(op, "&");
  }

  // ---------------------------------------------------------------------
  // parse_redirect

  function StreamOf(origin: string): Stream {
    if origin == "2" then ToStderr else ToStdout
  }

  /** `1>&2`, `2>>&1` and the like change one stream and take one token. */
  lemma DuplicationRedirect(r: Redirect, rest: seq<string>, unopenable: set<string>)
    requires ValidRedirect(r) && r.target != ""
    ensures ParseRedirect([RenderRedirect(r)] + rest, unopenable)
         == Success(Some(Redirection(StreamOf(r.origin), if r.target == "1" then Stdout else Stderr, 1)))
  {
    ExtractComplete(r);
  }

  /** `>`, `2>>` and the like take the next token as the file, which is
      appended to exactly for `>>`. */
  lemma FileRedirect(r: Redirect, path: string, rest: seq<string>, unopenable: set<string>)
    requires ValidRedirect(r) && r.target == "" && path !in unopenable
    ensures ParseRedirect([RenderRedirect(r), path] + rest, unopenable)
         == Success(Some(Redirection(StreamOf(r.origin), File(path, r.op == ">>"), 2)))
  {
    ExtractComplete(r);
  }

  /** A file redirect with nothing after it is a syntax error. */
  lemma FileRedirectAtEnd(r: Redirect, unopenable: set<string>)
    requires ValidRedirect(r) && r.target == ""
    ensures ParseRedirect([RenderRedirect(r)], unopenable) == Failure(SyntaxError)
  {
    ExtractComplete(r);
  }
}
