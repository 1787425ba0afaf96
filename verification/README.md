# Shell front end: a Dafny model

This project models the front end of a small interactive shell written in
Rust. That front end:

- reads a line and decides whether it is complete (quotes and brackets balanced);
- splits the line into tokens (quotes, backslash escapes, the separators `&`, `|`, `;`);
- groups the tokens into pipeline stages with their redirects;
- parses the arguments of the builtins (`echo`, `type`, `history`, `pwd`, `cd`, `exit`).

It also models:

- the character trie the shell keeps for completion;
- the older multi-line reader of `src/parse_input.rs`;
- the older command reader of `src/command.rs`;
- the older single-file builtins of `src/builtin.rs`.

Everything is modelled with immutable datatypes and pure functions. The
write loops of the builtins are methods, and each is proved equal to a
reference function. The outside world becomes parameters:

- writers are described by the set of write attempts that fail;
- the search path is a map from names to paths;
- the file system is a map from paths to contents;
- the command builder and file opening of the pipeline parser are sets of
  rejected inputs.

A panic in the source becomes an explicit outcome, such as `None`, `Panic`,
`Stuck` or `EmptyCommand`. The `usize` underflow of the history start index
is one of them: asking for more entries than the history holds gives `None`.
There is one exception. The `unreachable!()` arm of `BuiltinCommand::parse`,
in both generations, becomes `requires name in Names` on `Builtins.Parse`
and `LegacyBuiltins.Parse`.

Modules, one per source file, with shared helpers:

| module | file | models |
|---|---|---|
| `Results`, `Seqs` | `results.dfy`, `seqs.dfy` | `Option`/`Result`; small sequence facts |
| `Text` | `text.dfy` | whitespace, `trim`, `join`, `split(' ')`, `lines()` |
| `Decimal` | `decimal.dfy` | `str::parse` for `i32`, `i64` and `usize`, and `to_string` |
| `Tokenizer`, `TokenizeRoundTrip` | `tokenize.dfy`, `tokenize_roundtrip.dfy` | `src/tokenize.rs` |
| `InputParser`, `InputRender`, `InputRoundTrip` | `parse_input.dfy`, `input_render.dfy`, `input_roundtrip.dfy` | `src/parse_input.rs` |
| `Validator`, `ValidatorRoundTrip` | `reader.dfy`, `reader_roundtrip.dfy` | `src/reader.rs` |
| `Pipeline`, `PipelineRoundTrip` | `parser.dfy`, `parser_roundtrip.dfy` | `src/parser.rs` |
| `CharTrie` | `trie.dfy` | `src/trie.rs` |
| `Output` | `output.dfy` | the `writeln!` loops of the builtins |
| `Commands` | `command.dfy` | `src/command.rs` |
| `BuiltinSet`, `Builtins` | `builtin_mod.dfy` | `src/builtin/mod.rs` |
| `TypeBuiltin` | `builtin_type.dfy` | `src/builtin/type_.rs` |
| `HistoryBuiltin` | `builtin_history.dfy` | `src/builtin/history.rs` |
| `LegacyBuiltins` | `builtin_legacy.dfy` | `src/builtin.rs` |

Each round-trip module defines, independently of the code, the inputs an
operation is meant to accept. It renders those inputs into text or tokens,
and proves that the operation gives back what was rendered. Examples:

- the words of a line;
- the stages of a pipeline;
- balanced text.

## Model

| member | source | states |
|---|---|---|
| Text.Trim | src/tokenize.rs:15 | the trimmed text is no longer than the input, and starts and ends with non-whitespace |
| Text.TrimSpec | src/tokenize.rs:15 | the trimmed text is the part of the input between its leading and trailing whitespace runs |
| Text.SplitJoin | src/builtin/mod.rs:40-47 | joining separator-free parts with a separator and splitting again gives back the parts |
| Text.LinesConcat | src/builtin/history.rs:93 | `lines()` of whole lines followed by more text is the lines of each part, concatenated |
| Text.UnterminatedLine | src/builtin/history.rs:93 | text with no line feed is one line, kept whole |
| Text.CarriageReturns | src/builtin/history.rs:93 | a carriage return is dropped before a line feed and kept at the end of an unterminated last line |
| Text.TrimPadded | src/tokenize.rs:15 | trimming whitespace padding around text that starts and ends with non-whitespace gives that text back |
| Decimal.ParseInt | src/command.rs:28-32 | a parsed value is in the type's range, and text with no digits or with whitespace is rejected |
| Decimal.ParseShow | src/builtin/mod.rs:57-61 | parsing the decimal rendering of an in-range value gives the value back, for `i32`, `i64` and `usize` |
| Tokenizer.ParseNative | src/tokenize.rs:67-97 | the reader stays inside the buffer and always advances on a character that is not special |
| Tokenizer.ParseNativeSpec | src/tokenize.rs:67-97 | the fragment is the longest bare run after the leading whitespace; it continues exactly when a quote or backslash follows, and otherwise the whitespace after it is consumed |
| Tokenizer.ParseSingleQuote | src/tokenize.rs:99-122 | the fragment is the verbatim text up to the next single quote; a closing quote finishes the token exactly when the buffer ends or whitespace follows; an unclosed quote takes the rest of the buffer and continues |
| Tokenizer.ParseBackslash | src/tokenize.rs:156-186 | an escape consumes two characters, contributes the escaped value, and finishes the token exactly at the end of the buffer or before whitespace outside double quotes |
| Tokenizer.EscapeValue | src/tokenize.rs:163-174 | an escaped line feed contributes nothing; outside double quotes the character itself; inside double quotes only `\` and `"` drop their backslash |
| Tokenizer.ParseDoubleQuote | src/tokenize.rs:124-154 | the reader advances inside the buffer; it fails only when the buffer ends with a backslash |
| Tokenizer.Step | src/tokenize.rs:24-32 | the loop step advances by at least one character, and fails only on a special character at the very end |
| Tokenizer.Scan | src/tokenize.rs:21-55 | the loop fails only when the buffer ends in a special character |
| Tokenizer.Tokenize | src/tokenize.rs:12-58 | input ending in a backslash is rejected (the debug assertion) |
| Tokenizer.TokensNonEmpty | src/tokenize.rs:34-55 | no emitted token is empty, so a bare `''` yields no token |
| Tokenizer.TokenizeCompletes | src/tokenize.rs:12-58 | input whose trimmed text does not end in a quote or backslash always tokenizes |
| TokenizeRoundTrip.TokenizeRenderedLine | src/tokenize.rs:12-186 | a line of words and separators, joined by whitespace runs of any length (or by nothing after a separator and between a bare run and a separator) and padded with any whitespace, tokenizes to the words' values and the separators, in order: quoted text verbatim, escapes literal, adjacent pieces joined, whitespace dropped; it is rejected exactly when it ends with a backslash |
| TokenizeRoundTrip.GapSkip | src/tokenize.rs:67-97 | between tokens, a whitespace run of any length reads the same as none: the loop resumes after it with the same tokens |
| TokenizeRoundTrip.SpaceRunSeparates | src/tokenize.rs:197-202 | `echo shell   hello` tokenizes to `echo`, `shell`, `hello` |
| TokenizeRoundTrip.SeparatorWithoutSpaces | src/tokenize.rs:73-80 | a separator written between two bare words with no spaces is a token of its own: `ls\|wc` reads as `ls`, `\|`, `wc`, in both the original and the corrected tokenizer |
| TokenizeRoundTrip.SingleQuotedFragment | src/tokenize.rs:99-122 | a single-quoted piece reads back as its text, consuming the quotes |
| TokenizeRoundTrip.DoubleQuotedFragment | src/tokenize.rs:124-154 | a double-quoted piece with `\` and `"` escaped reads back as its text |
| TokenizeRoundTrip.PieceFragment | src/tokenize.rs:24-32 | every kind of piece is read by the reader the loop dispatches to, and yields its value |
| TokenizeRoundTrip.TokenizeGluesSeparator | src/tokenize.rs:30 | as written, a separator right after a quoted word is appended to that word, whatever line follows: `'a'\|b` reads as `a\|` and `b` |
| Tokenizer.TokenizeFixed | src/tokenize.rs:30 | the corrected tokenizer, where a separator ends the pending token before being emitted; it rejects input ending in a backslash |
| TokenizeRoundTrip.TokenizeFixedSplitsSeparator | src/tokenize.rs:30 | with the correction, a quoted word, the separator after it and the line that follows are separate tokens: `'a'\|b` reads as `a`, `\|` and `b` |
| TokenizeRoundTrip.TokenizeFixedRenderedLine | src/tokenize.rs:12-186 | the corrected tokenizer reads every rendered line, with the same whitespace runs, padding and unspaced separators, the same way as the original |
| Tokenizer.FixedTokensNonEmpty | src/tokenize.rs:34-55 | the corrected tokenizer never emits an empty token either |
| Tokenizer.FixedCompletes | src/tokenize.rs:12-58 | the corrected tokenizer completes on the same inputs |
| InputParser.ReadNative | src/parse_input.rs:20-49 | the reader never asks for a line; it consumes nothing exactly on a quote or backslash, and a finished token consumes at least one character |
| InputParser.ReadNativeSpec | src/parse_input.rs:20-49 | the fragment is the longest plain run after the leading whitespace; it continues exactly when a quote or backslash follows, and otherwise the whitespace after it is consumed |
| InputParser.ReadQuote | src/parse_input.rs:51-103 | the quote readers stay inside the buffer and consume both quotes whenever they do not ask for a new line |
| InputParser.ReadQuoteSpec | src/parse_input.rs:51-103 | the fragment is the verbatim text up to the first closing quote; a quote that ends the buffer reads nothing and asks for a line; an unclosed quote reads the rest and asks for a line |
| InputParser.Dispatch | src/parse_input.rs:117-123 | the chosen reader stays in the buffer, and makes no progress exactly on an unquoted backslash |
| InputParser.ParseInput | src/parse_input.rs:162-169 | the first token is the command and the rest its arguments; no tokens give an empty command; panics and endless loops give no result |
| InputParser.TokensNonEmpty | src/parse_input.rs:125-157 | no emitted token is empty |
| InputParser.UnclosedQuoteAsksForLine | src/parse_input.rs:51-76 | an unclosed quote ends the line's scan with the rest of the line added to the pending token |
| InputParser.TrailingQuoteDropped | src/parse_input.rs:52-54 | a quote as the last character asks for a line having read nothing, so the quote is lost |
| InputParser.BackslashStuck | src/parse_input.rs:20-49 | an unquoted backslash stops all progress |
| InputRoundTrip.ReadRenderedLine | src/parse_input.rs:105-160 | a line of plain and quoted pieces, with words joined by whitespace runs of any length and any whitespace (or none, with no line feed) before and after, reads back as its non-empty word values, in order, and later lines are never read |
| InputRoundTrip.GapSkip | src/parse_input.rs:20-49 | between words, a whitespace run of any length reads the same as none |
| InputRoundTrip.SpaceRunSeparates | src/parse_input.rs:186 | `echo shell   hello` reads as `echo`, `shell`, `hello` |
| InputRoundTrip.QuotedSpaceRunKept | src/parse_input.rs:191 | `echo 'shell   hello'` reads as `echo` and `shell   hello`, the spaces kept |
| InputRoundTrip.ScanOpenQuote | src/parse_input.rs:51-103 | a rendered line followed by a quote that is never closed asks for another line, holding the text after the quote as the pending token and the line's words as the tokens so far |
| InputRoundTrip.ResumeGlued | src/parse_input.rs:141-150 | when the line after an open quote starts with a word, the text after the quote is glued to that word's value, and the rest of that line reads as plain words: the quote is not carried over |
| InputRoundTrip.ResumeSeparated | src/parse_input.rs:141-150 | when the line after an open quote starts with whitespace, the text after the quote becomes a token of its own, followed by that line's words |
| InputRoundTrip.ClosingQuoteReopens | src/parse_input.rs:51-150 | a quote on the next line that was meant to close the open one starts a new quoted string instead, and with no more lines the read panics |
| Validator.Validate | src/reader.rs:28-38 | text ending with a backslash always asks for another line |
| Validator.ValidateBrackets | src/reader.rs:40-82 | the text is invalid exactly when the scan meets a mismatched closer; `ValidatorRoundTrip.BracketsBalanced` says when it is valid |
| Validator.Message | src/reader.rs:62-71 | every rejection message starts with `Mismatched brackets: ` |
| Validator.StepNeverBothQuotes | src/reader.rs:51-58 | no character puts the scan inside both kinds of quote at once |
| Validator.EscapeInert | src/reader.rs:48-50 | a backslash outside single quotes skips the next character, whatever it is |
| Validator.QuotedBracketInert | src/reader.rs:59-60 | brackets inside either quote change nothing |
| Validator.BracketStep | src/reader.rs:59-72 | outside quotes an opener is pushed, and a closer pops its own opener, reports the other opener as not properly closed, or is unpaired |
| Validator.ScanInvariant | src/reader.rs:44-75 | the scan is never inside both quotes and its stack holds only openers |
| Validator.ScanConcat | src/reader.rs:46-75 | scanning a concatenation continues from where the first part left off, and stops at the first mismatch |
| ValidatorRoundTrip.BalancedIsValid | src/reader.rs:40-82 | balanced text (nested brackets, quoted text, backslash escapes) passes the bracket check, and is a complete command exactly when it does not end with a backslash |
| ValidatorRoundTrip.ScannedIsBalanced | src/reader.rs:44-81 | text the scan finishes outside quotes and brackets reads back as balanced chunks, save perhaps for a last lone backslash |
| ValidatorRoundTrip.BracketsBalanced | src/reader.rs:40-82 | the bracket check accepts exactly balanced text, and balanced text followed by one lone backslash |
| ValidatorRoundTrip.LoneBackslash | src/reader.rs:48-50 | a lone backslash after balanced text passes the bracket check |
| ValidatorRoundTrip.ValidateBalanced | src/reader.rs:28-82 | a line is a complete command exactly when it is balanced and does not end with a backslash |
| ValidatorRoundTrip.CloserAfterBalanced | src/reader.rs:67-70 | a closer after balanced text is reported as unpaired |
| ValidatorRoundTrip.OpenerLeftOpen | src/reader.rs:77-81 | an opener whose balanced contents run to the end asks for another line |
| ValidatorRoundTrip.WrongCloser | src/reader.rs:62-66 | an opener closed by a closer of another kind is reported as not properly closed |
| ValidatorRoundTrip.QuoteLeftOpen | src/reader.rs:51-54 | an unclosed single quote asks for another line, whatever brackets follow |
| ValidatorRoundTrip.ScanChunks | src/reader.rs:44-75 | balanced text leaves the scan's state as it found it, whatever the stack below |
| CharTrie.AddPath | src/trie.rs:15-20 | adding keeps the existing children and adds the first character's child |
| CharTrie.FindAfterAdd | src/trie.rs:15-20 | after adding a string, every prefix of it is a path |
| CharTrie.AddReuses | src/trie.rs:18 | adding reuses the node a path already reaches, and otherwise ends at a new childless node |
| CharTrie.AddIdempotent | src/trie.rs:15-20 | adding a string twice is adding it once |
| CharTrie.LeafAfterAdd | src/trie.rs:15-20 | after adding `s`, `s` is stored exactly when it ends at a new or childless node, and another stored string stays stored unless `s` extends it |
| CharTrie.DeletePath | src/trie.rs:22-38 | deleting never adds children |
| CharTrie.DeleteNonLeafNoOp | src/trie.rs:22-38 | deleting the empty string or a string that is not stored changes nothing |
| CharTrie.DeleteLeaf | src/trie.rs:22-38 | deleting a stored string makes it unreachable, keeps every other stored string, and reports removal exactly when the child was dropped |
| CharTrie.TrieDeleteSpec | src/trie.rs:150-152 | at the trie level, deleting a stored string removes it and only it |
| CharTrie.GetAllCharsSpec | src/trie.rs:60-80 | the collected paths are exactly the paths from the node to its leaves |
| CharTrie.NodeExtract | src/trie.rs:104-115 | extraction gives a result exactly when the prefix is a path, except for an empty prefix on a childless node |
| CharTrie.ExtractNone | src/trie.rs:154-160 | extraction from a trie fails exactly when the prefix is not a path, or is empty on an empty trie |
| CharTrie.ExtractSpec | src/trie.rs:104-115 | the extracted strings are exactly the stored strings that start with the prefix |
| CharTrie.FromStoresOnly | src/trie.rs:118-124 | a trie built from a string stores that string and nothing else |
| CharTrie.FromIsChain | src/trie.rs:163-169 | a trie built from a string is the single chain of its characters |
| Pipeline.ExtractRedirect | src/parser.rs:61-71 | every accepted token has a valid origin, operator and target |
| Pipeline.ExtractSound | src/parser.rs:61-71 | every accepted token is exactly the rendering of the pieces returned |
| Pipeline.ExtractComplete | src/parser.rs:61-71 | every token of the pattern's language is accepted, with its own pieces |
| Pipeline.DanglingAmpersand | src/parser.rs:62 | `>&` or `2>>&` with no stream number is not a redirect |
| Pipeline.ParseRedirect | src/parser.rs:73-109 | a redirect consumes one or two tokens; the result is empty exactly when the token is not a redirect |
| Pipeline.DuplicationRedirect | src/parser.rs:80-89 | `1>&2`, `2>>&1` and the like change one stream to the named standard stream and take one token |
| Pipeline.FileRedirect | src/parser.rs:90-101 | a file redirect takes the next token as its file, and appends exactly for `>>` |
| Pipeline.FileRedirectAtEnd | src/parser.rs:91-92 | a file redirect with no file after it is a syntax error |
| PipelineRoundTrip.ParseLine | src/parser.rs:111-171 | the tokens of a line give one stage per separator plus one for trailing words, each with its words, the last redirect of each stream (a pipe overriding stdout), its reader, and whether it waits |
| PipelineRoundTrip.UnsupportedSeparator | src/parser.rs:130-139 | `&`, `&&` and `\|\|` stop the parse |
| PipelineRoundTrip.SeparatorWithoutWords | src/parser.rs:143-144 | a separator with no words before it in its stage is an error |
| PipelineRoundTrip.RejectedCommand | src/parser.rs:143-149 | words the command builder rejects stop the parse at their separator |
| PipelineRoundTrip.RedirectWithoutFile | src/parser.rs:91-92 | a file redirect as the last token of a line is a syntax error |
| Output.WriteStatus | src/builtin/mod.rs:113 | the exit code of one write is 0 when it succeeds and -1 when it fails |
| Output.FirstFailure | src/builtin/type_.rs:42-53 | the count of writes that succeed is the least failing attempt, or all of them |
| Output.WriteLines | src/builtin/type_.rs:42-55 | a write loop leaves a prefix of the lines, exit code 0 exactly when all went out, and -1 at the failing attempt |
| Output.WriteLinesFailures | src/builtin/type_.rs:50-55 | the loop exits with 0 exactly when none of its attempts fails |
| Commands.ArgsFromSlice | src/command.rs:66-70 | every word is trimmed, in order |
| Commands.ParseCommand | src/command.rs:10-42 | a failure is too many arguments or a bad integer, and an exit code is a 32-bit value |
| Commands.UnknownRoundTrip | src/command.rs:35-38 | a line of plain words not starting with `exit` is an unknown command with the other words as arguments |
| Commands.ExitRoundTrip | src/command.rs:28-33 | `exit N` exits with N for every 32-bit N |
| Commands.ExitAlone | src/command.rs:28-29 | `exit` alone, with any surrounding whitespace, exits with 0 |
| Commands.ExitDoubleSpace | src/command.rs:12-26 | two spaces after `exit` make an empty first argument, so the command is rejected as having too many arguments |
| TypeBuiltin.Parse | src/builtin/type_.rs:22-33 | `type` succeeds exactly when it has a name, keeps the names as given, and otherwise asks for at least one |
| TypeBuiltin.Classify | src/builtin/type_.rs:43-49 | a name is a builtin exactly when it is in the builtin set, found on the path exactly when it is not and the search finds it, with the path found |
| TypeBuiltin.Describe | src/builtin/type_.rs:44-48 | every line starts with the name |
| TypeBuiltin.ReadDescribe | src/builtin/type_.rs:44-48 | the text after the name tells the three classifications apart |
| TypeBuiltin.Report | src/builtin/type_.rs:42-49 | one line per name, in order |
| TypeBuiltin.Execute | src/builtin/type_.rs:35-57 | the loop writes the report's lines up to the first failure and returns its exit code |
| HistoryBuiltin.Parse | src/builtin/history.rs:27-63 | no argument or one number lists, `-r` with an existing file reads it, `-w` and `-a` save, any other flag is an unknown parameter, and more than two arguments are too many |
| HistoryBuiltin.ShowRows | src/builtin/history.rs:76-86 | the listing is the last `n` entries, or all of them, each numbered by its 1-based position in the whole history; there is none (`num - n` underflows) exactly when `n` exceeds the number of entries |
| HistoryBuiltin.ShowLast | src/builtin/history.rs:78 | listing the last `n` entries shows the tail of the full listing, numbers included |
| HistoryBuiltin.PadLeft | src/builtin/history.rs:82 | a number is right-aligned in a field of the given width, with spaces before it |
| HistoryBuiltin.RowsAligned | src/builtin/history.rs:77-86 | a field as wide as the largest number puts every entry at the same column |
| HistoryBuiltin.ExecuteShow | src/builtin/history.rs:73-88 | the loop writes the formatted listing up to the first failure and returns its exit code; asking for more entries than exist panics (`None`) before anything is written |
| HistoryBuiltin.WriteFrom | src/builtin/history.rs:78-86 | writing the rows from index `num - n` on produces the listing's lines in order up to the first failed write, and the exit code says whether one failed |
| HistoryBuiltin.Serialize | src/builtin/history.rs:110-113 | the saved text is empty exactly for an empty history, and otherwise ends with a line feed |
| HistoryBuiltin.LinesOfSerialize | src/builtin/history.rs:93-113 | reading a saved history line by line gives back its entries |
| HistoryBuiltin.ExecuteFile | src/builtin/history.rs:89-142 | exit code 0 exactly when no error is written; a failure leaves everything unchanged; only `-r` changes the history |
| HistoryBuiltin.WriteThenRead | src/builtin/history.rs:89-124 | `-w` then `-r` on the same file appends the saved entries to the history |
| HistoryBuiltin.AppendThenRead | src/builtin/history.rs:89-106 | `-a` to a file of whole lines, then `-r`, reads the old lines followed by the appended entries |
| Builtins.NameOf | src/builtin/mod.rs:17-32 | every builtin value belongs to a name in the builtin set |
| Builtins.Parse | src/builtin/mod.rs:34-102 | too many arguments exactly over each builtin's limit, too few exactly for `type` alone, a bad integer names its text, the defaults with no arguments, and `history` and `exit` values in the `i64` and `i32` ranges |
| Builtins.EchoRoundTrip | src/builtin/mod.rs:40-47 | `echo`'s content splits back into its space-free arguments |
| Builtins.NumberRoundTrip | src/builtin/mod.rs:57-61 | `exit N` and `history N` take back every N in their type's range |
| Builtins.Printed | src/builtin/mod.rs:113 | printed output ends with a line feed |
| Builtins.ExecuteEcho | src/builtin/mod.rs:112-114 | `echo` prints its content and a line feed and exits with 0, or exits with -1 having printed nothing |
| Builtins.EchoAlone | src/builtin/mod.rs:43-45 | `echo` with no arguments prints two line feeds |
| Builtins.ExecutePwd | src/builtin/mod.rs:130-137 | `pwd` prints the working directory and exits with 0 exactly when there is one and the write succeeds; without one it reports `invalid directory` and exits with -1 |
| Builtins.HistoryStart | src/builtin/mod.rs:121 | listing starts where exactly `n` entries remain, or at the first entry for -1; there is no start (the subtraction underflows) exactly when `n` is below -1 or above the number of entries |
| Builtins.ExecuteHistory | src/builtin/mod.rs:116-129 | the `History(n)` builtin prints the same numbered listing as `history n`, and all `n` lines when every write succeeds; it panics (`None`) exactly when `n` is below -1 or above the number of entries |
| Builtins.ShowAll | src/builtin/mod.rs:121 | listing the last `num` entries is listing all of them |
| LegacyBuiltins.ParseType | src/builtin.rs:147-158 | a name is a builtin exactly when it is in this generation's set, an executable exactly when it is not and the search finds it, keeping the name |
| LegacyBuiltins.Display | src/builtin.rs:160-171 | every line starts with the name |
| LegacyBuiltins.Parse | src/builtin.rs:28-89 | too few arguments exactly for `type` alone, too many exactly over each limit, one classification per name, and the defaults |
| LegacyBuiltins.Displayed | src/builtin.rs:97-104 | one line per classified name, in order |
| LegacyBuiltins.ExecuteTypes | src/builtin.rs:97-104 | the loop writes the lines up to the first failure and returns its exit code |
| LegacyBuiltins.TypeLineAgrees | src/builtin.rs:160-171 | for any name but `history`, both generations of `type` print the same line |
| LegacyBuiltins.HistoryNotBuiltin | src/builtin.rs:12-15 | `history` is a builtin only in the newer generation |
| LegacyBuiltins.ParseAgrees | src/builtin.rs:28-89 | apart from `type`, both generations parse the builtins they share the same way, errors included |

## Left out

- Terminal I/O, the line editor and its lock: the reader is a sequence of lines, and the history is a sequence of entries.
- `char::is_whitespace` is the ASCII whitespace set (space, tab, line feed, carriage return, vertical tab, form feed); Unicode whitespace is not modelled.
- Panics are explicit outcomes, not crashes. This covers `debug_assert`, out-of-bounds indexing and `todo!()`.
- Builtins.Parse and LegacyBuiltins.Parse: the `unreachable!()` arm for a name outside the builtin list (src/builtin/mod.rs:98, src/builtin.rs:85) is the precondition `name in Names`, not a modelled panic: the model keeps other names out instead of describing the panic.
- Integer overflow follows a debug build: the `usize` underflow in the history start index is a panic (`None`), not the wrap-around of a release build.
- `src/parser.rs`: a `|` replaces any earlier stdout redirect of its stage, as in the code.
- `src/parser.rs`: `io::pipe()` is assumed to succeed, and pipes are numbered.
- `src/parser.rs`: `Command::parse` (the two-argument builder) is not part of this model. It is the set `rejects` of word lists it refuses.
- `src/parser.rs`: opening a redirect file is the set `unopenable` of paths that fail.
- `src/parser.rs`: a separator with no words before it indexes an empty vector; the model names this `EmptyCommand`.
- `find_in_path` is the map `found` from names to paths.
- `Path::is_file` is the set `files`.
- File creation failure is the set `uncreatable`.
- The history's display width, computed with `f64` logarithms, is a parameter. `HistoryBuiltin.RowsAligned` states what it must satisfy.
- HistoryBuiltin.ExecuteFile: the line editor's `add_history_entry` filtering (duplicates, size limit) is not modelled, and entries are appended as read. A `write_all` failure after a successful open, and read errors while reading lines, are not modelled either.
- The `map_err_to_exit_code!` macro is not part of this model. It is taken to return -1 on an error.
- Executing `cd` and `exit` is not modelled. It changes the process's directory or ends the process; only their argument parsing is modelled.
- Executing external programs and the completion helper's use of the trie are not modelled.
- `TrieNode::get_all_strings` is not modelled: it is the same walk as `get_all_chars` and is not used by `extract`.
- `Decimal.ParseInt` models `usize` as 64 bits.
- TokenizeRoundTrip.TokenizeRenderedLine: a line whose last piece is an escaped whitespace character is not covered, because trimming removes that character and leaves a lone backslash at the end of the buffer.
- TokenizeRoundTrip.TokenizeRenderedLine: a quoted or escaped piece written directly before a separator is not covered, because the loop glues the separator onto it; `TokenizeGluesSeparator` states that behaviour for a single-quoted word.
- TokenizeRoundTrip.TokenizeFixedRenderedLine: the same two shapes are left out as for `TokenizeRenderedLine`; `TokenizeFixedSplitsSeparator` covers the quoted word before a separator.
- InputRoundTrip.ReadRenderedLine: lines with a backslash outside quotes are not covered, because that reader makes no progress on it (`InputParser.BackslashStuck`).
- Commands.ParseCommand: the `NoCommand` branch cannot be reached, because splitting always yields at least one piece. Its contract states no more than the reachable errors and the exit range; `UnknownRoundTrip` and `ExitRoundTrip` give the full behaviour.

## Findings

| source | as written | input that shows it | evidently intended | confidence | as-written member | corrected member |
|---|---|---|---|---|---|---|
| src/tokenize.rs:30 | a separator is returned as a fragment with status `Finish`; the loop appends it to the pending token before emitting, so it glues onto a quoted word just before it | `'a'\|b` tokenizes to `a\|` and `b` | the separator ends the pending token and is a token of its own: `a`, `\|`, `b` | not executed | TokenizeRoundTrip.TokenizeGluesSeparator | TokenizeRoundTrip.TokenizeFixedSplitsSeparator |
