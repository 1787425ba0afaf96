/** The `history` builtin of `src/builtin/history.rs`: its four forms, the
    numbered listing, and saving the history to and loading it from a file.

    The line editor's history is a sequence of entries, oldest first, and
    the file system is a map from paths to contents. */
module HistoryBuiltin {
  import opened Results
  import opened Output
  import opened Commands
  import Text
  import Decimal
  import Seqs

  datatype History =
    | Show(count: Option<nat>)
    | Read(path: string)
    | Write(path: string)
    | Append(path: string)

  /** `History::parse`.  `files` holds the paths that name existing regular
      files, which `-r` demands. */
  function Parse(name: string, args: seq<string>, files: set<string>): (r: Result<History, CommandError>)
    ensures (r.Failure? && r.error.MoreArgs?) <==> |args| > 2
    ensures |args| > 2 ==> r.error == MoreArgs(name, args, 2)
    ensures (r.Success? && r.value.Show?) <==>
      |args| <= 1 && (args == [] || Decimal.ParseInt(args[0], Decimal.Usize).Some?)
    ensures r.Success? && r.value.Show? ==>
      if args == [] then r.value.count.None?
      else r.value.count.Some? && Decimal.ParseInt(args[0], Decimal.Usize) == Some(r.value.count.value)
    ensures (r.Success? && r.value.Read?) <==> |args| == 2 && args[0] == "-r" && args[1] in files
    ensures (r.Success? && r.value.Write?) <==> |args| == 2 && args[0] == "-w"
    ensures (r.Success? && r.value.Append?) <==> |args| == 2 && args[0] == "-a"
    ensures r.Success? && !r.value.Show? ==> r.value.path == args[1]
    ensures |args| == 2 && args[0] != "-r" && args[0] != "-w" && args[0] != "-a" ==>
      r == Failure(Failed("unknown parameter: " + args[0]))
  {
    if |args| <= 1 then
      if args == [] then Success(Show(None))
      else
        match Decimal.ParseInt(args[0], Decimal.Usize)
        case None => Failure(InvalidInteger(args[0]))
        case Some(n) => Success(Show(Some(n)))
    else if |args| == 2 then
      var file := args[1];
      if args[0] == "-r" then
        if file !in files then Failure(Failed("File " + file + " does not exits or is not a file."))
        else Success(Read(file))
      else if args[0] == "-w" then Success(Write(file))
      else if args[0] == "-a" then Success(Append(file))
      else Failure(Failed("unknown parameter: " + args[0]))
    else Failure(MoreArgs(name, args, 2))
  }

  // ---------------------------------------------------------------------
  // Listing

  /** One listed entry with its number. */
  datatype Row = Row(number: nat, entry: string)

  /** The entries `Show(count)` lists: all of them, or the last `count`,
      each numbered by its 1-based position in the whole history.  Asking
      for more entries than there are makes `num - n` underflow, which
      panics: no listing. */
  function ShowRows(entries: seq<string>, count: Option<nat>): (rows: Option<seq<Row>>)
    ensures rows.None? <==> count.Some? && count.value > |entries|
    ensures rows.Some? ==> |rows.value| == if count.None? then |entries| else count.value
    ensures rows.Some? ==> forall i :: 0 <= i < |rows.value| ==>
      && rows.value[i].entry == entries[|entries| - |rows.value| + i]
      && rows.value[i].number == |entries| - |rows.value| + i + 1
  {
    if count.Some? && count.value > |entries| then None
    else
      var skip := if count.None? then 0 else |entries| - count.value;
      Some(seq(|entries| - skip, i requires 0 <= i < |entries| - skip => Row(skip + i + 1, entries[skip + i])))
  }

  /** Listing the last `n` entries shows the tail of the full listing,
      numbers included. */
  lemma ShowLast(entries: seq<string>, n: nat)
    requires n <= |entries|
    ensures ShowRows(entries, Some(n)) == Some(ShowRows(entries, None).value[|entries| - n..])
  {
    var all := ShowRows(entries, None).value;
    var last := ShowRows(entries, Some(n)).value;
    forall i | 0 <= i < n
      ensures last[i] == all[|entries| - n..][i]
    {
    }
    assert last == all[|entries| - n..];
  }

  /** `s` right-aligned in a field of `width` characters (`{:width$}`). */
  function PadLeft(s: string, width: nat): (r: string)
    ensures |r| == if |s| < width then width else |s|
    ensures r[|r| - |s|..] == s
    ensures forall k :: 0 <= k < |r| - |s| ==> r[k] == ' '
  {
    if |s| < width then Spaces(width - |s|) + s else s
  }

  function Spaces(n: nat): (r: string)
    ensures |r| == n && forall k :: 0 <= k < n ==> r[k] == ' '
  {
    if n == 0 then [] else Spaces(n - 1) + " "
  }

  /** `"   {:length$}  {}"` for one row. */
  function FormatRow(row: Row, width: nat): string {
    "   " + PadLeft(Decimal.ShowNat(row.number), width) + "  " + row.entry
  }

  function FormatRows(rows: seq<Row>, width: nat): (lines: seq<string>)
    ensures |lines| == |rows|
    ensures forall i :: 0 <= i < |rows| ==> lines[i] == FormatRow(rows[i], width)
  {
    seq(|rows|, i requires 0 <= i < |rows| => FormatRow(rows[i], width))
  }

  /** A field at least as wide as the largest number puts every entry in the
      same column. */
  lemma RowsAligned(entries: seq<string>, count: Option<nat>, width: nat)
    requires |Decimal.ShowNat(|entries|)| <= width
    ensures ShowRows(entries, count).Some? ==>
      var rows := ShowRows(entries, count).value;
      var lines := FormatRows(rows, width);
      forall i :: 0 <= i < |lines| ==>
        |lines[i]| == 5 + width + |rows[i].entry| && lines[i][5 + width..] == rows[i].entry
  {
    if ShowRows(entries, count).None? {
      return;
    }
    var rows := ShowRows(entries, count).value;
    forall i | 0 <= i < |rows|
      ensures |FormatRow(rows[i], width)| == 5 + width + |rows[i].entry|
      ensures FormatRow(rows[i], width)[5 + width..] == rows[i].entry
    {
      Decimal.ShowNatLength(rows[i].number, |entries|);
      var pad := PadLeft(Decimal.ShowNat(rows[i].number), width);
      assert |pad| == width;
      assert FormatRow(rows[i], width) == ("   " + pad + "  ") + rows[i].entry;
    }
  }

  /** `History::execute` for `Show`: rows go out one by one from index
      `num - n`, and the first failed write ends the loop with -1.  `None`
      where `num - n` underflows and the builtin panics before writing. */
  method ExecuteShow(entries: seq<string>, count: Option<nat>, width: nat, failures: set<nat>)
    returns (o: Option<Outcome>)
    ensures o.None? <==> count.Some? && count.value > |entries|
    ensures o.Some? ==> o.value == WriteLines(FormatRows(ShowRows(entries, count).value, width), failures)
  {
    if count.Some? && count.value > |entries| {
      return None;
    }
    var written := WriteListing(entries, count, width, failures);
    return Some(written);
  }

  /** The write loop of `ExecuteShow`, once the start index is known. */
  method WriteListing(entries: seq<string>, count: Option<nat>, width: nat, failures: set<nat>)
    returns (o: Outcome)
    requires count.Some? ==> count.value <= |entries|
    ensures o == WriteLines(FormatRows(ShowRows(entries, count).value, width), failures)
  {
    var skip := if count.None? then 0 else |entries| - count.value;
    ghost var lines := FormatRows(ShowRows(entries, count).value, width);
    ListingLines(entries, count, width, skip, lines);
    o := WriteFrom(entries, skip, width, failures, lines);
  }

  /** Rows go out one by one from index `skip`; the first failed write ends
      the loop with -1. */
  method WriteFrom(entries: seq<string>, skip: nat, width: nat, failures: set<nat>, ghost lines: seq<string>)
    returns (o: Outcome)
    requires skip <= |entries| && |lines| == |entries| - skip
    requires forall j :: 0 <= j < |lines| ==> lines[j] == FormatRow(Row(skip + j + 1, entries[skip + j]), width)
    ensures o == WriteLines(lines, failures)
  {
    var written: seq<string> := [];
    for idx := skip to |entries|
      invariant written == lines[..idx - skip]
      invariant forall j: nat :: j < idx - skip ==> j !in failures
    {
      var line := FormatRow(Row(idx + 1, entries[idx]), width);
      if idx - skip in failures {
        FirstFailureUnique(|lines|, failures, idx - skip);
        return Outcome(written, -1);
      }
      assert lines[idx - skip] == line;
      Seqs.PrefixStep(lines, idx - skip);
      written := written + [line];
    }
    FirstFailureUnique(|lines|, failures, |entries| - skip);
    return Outcome(written, 0);
  }

  /** The listing that skips the first `skip` entries holds, in order, the
      formatted row of every entry from `skip` on. */
  lemma ListingLines(entries: seq<string>, count: Option<nat>, width: nat, skip: nat, lines: seq<string>)
    requires count.Some? ==> count.value <= |entries|
    requires skip == if count.None? then 0 else |entries| - count.value
    requires lines == FormatRows(ShowRows(entries, count).value, width)
    ensures skip <= |entries| && |lines| == |entries| - skip
    ensures forall j :: 0 <= j < |lines| ==> lines[j] == FormatRow(Row(skip + j + 1, entries[skip + j]), width)
  {
  }

  // ---------------------------------------------------------------------
  // Saving and loading

  /** The text `-w` and `-a` write: every entry followed by a line feed, in
      order (the `fold` over the history). */
  function Serialize(entries: seq<string>): (text: string)
    ensures text == [] || text[|text| - 1] == '\n'
    ensures entries == [] <==> text == []
  {
    if entries == [] then []
    else Serialize(entries[..|entries| - 1]) + entries[|entries| - 1] + "\n"
  }

  /** Entries that survive a trip through a file: `lines()` splits at line
      feeds and drops a carriage return before one. */
  predicate Clean(entries: seq<string>) {
    forall i :: 0 <= i < |entries| ==>
      '\n' !in entries[i] && (entries[i] == [] || entries[i][|entries[i]| - 1] != '\r')
  }

  /** Reading a saved history gives back its entries. */
  lemma {:induction false} LinesOfSerialize(entries: seq<string>)
    requires Clean(entries)
    ensures Text.Lines(Serialize(entries)) == entries
    decreases |entries|
  {
    if entries != [] {
      var init := entries[..|entries| - 1];
      var last := entries[|entries| - 1];
      assert Clean(init);
      LinesOfSerialize(init);
      SerializeLast(entries);
      LinesStep(Serialize(init), last);
      Seqs.InitLast(entries);
    }
  }

  /** The saved text grows by the last entry and a line feed. */
  lemma SerializeLast(entries: seq<string>)
    requires entries != []
    ensures Serialize(entries) == Serialize(entries[..|entries| - 1]) + (entries[|entries| - 1] + "\n")
  {
    var init := entries[..|entries| - 1];
    var last := entries[|entries| - 1];
    assert Serialize(entries) == Serialize(init) + last + "\n";
    Seqs.Assoc(Serialize(init), last, "\n");
  }

  /** Whole lines followed by one clean line read as those lines and it. */
  lemma LinesStep(a: string, last: string)
    requires a == [] || a[|a| - 1] == '\n'
    requires '\n' !in last && (last == [] || last[|last| - 1] != '\r')
    ensures Text.Lines(a + (last + "\n")) == Text.Lines(a) + [last]
  {
    Text.LinesConcat(a, last + "\n");
    Text.OneLine(last);
  }

  /** The shell's state as the file forms see it. */
  datatype Store = Store(history: seq<string>, files: map<string, string>)

  /** What a file form leaves: the new state, the message written to the
      error writer if any, and the exit code. */
  datatype FileOutcome = FileOutcome(store: Store, error: Option<string>, code: int)

  /** `History::execute` for `Read`, `Write` and `Append`.  `uncreatable`
      holds the paths `File::create` fails on; `Append` opens without
      creating, so it needs an existing file. */
  function ExecuteFile(cmd: History, st: Store, uncreatable: set<string>): (o: FileOutcome)
    requires !cmd.Show?
    ensures o.code == 0 <==> o.error.None?
    ensures o.code != 0 ==> o.code == -1 && o.store == st
    ensures o.store.history != st.history ==> cmd.Read?
  {
    match cmd
    case Read(p) =>
      if p in st.files then FileOutcome(st.(history := st.history + Text.Lines(st.files[p])), None, 0)
      else FileOutcome(st, Some("Failed to read " + p + "."), -1)
    case Write(p) =>
      if p !in uncreatable then FileOutcome(st.(files := st.files[p := Serialize(st.history)]), None, 0)
      else FileOutcome(st, Some("Failed to write " + p + "."), -1)
    case Append(p) =>
      if p in st.files then
        FileOutcome(st.(files := st.files[p := st.files[p] + Serialize(st.history)]), None, 0)
      else FileOutcome(st, Some("Failed to append " + p + "."), -1)
  }

  /** `history -w` then `history -r` on the same file appends the saved
      entries to whatever the history holds by then. */
  lemma WriteThenRead(st: Store, p: string, uncreatable: set<string>, later: seq<string>)
    requires p !in uncreatable && Clean(st.history)
    ensures var saved := ExecuteFile(Write(p), st, uncreatable).store;
      ExecuteFile(Read(p), saved.(history := later), uncreatable)
        == FileOutcome(Store(later + st.history, saved.files), None, 0)
  {
    LinesOfSerialize(st.history);
  }

  /** `history -a` to a file of whole lines, then `history -r`, reads the
      old lines followed by the appended entries. */
  lemma AppendThenRead(st: Store, p: string, uncreatable: set<string>, later: seq<string>)
    requires p in st.files && Clean(st.history)
    requires st.files[p] == [] || st.files[p][|st.files[p]| - 1] == '\n'
    ensures var saved := ExecuteFile(Append(p), st, uncreatable).store;
      ExecuteFile(Read(p), saved.(history := later), uncreatable).store.history
        == later + Text.Lines(st.files[p]) + st.history
  {
    var before := st.files[p];
    var saved := ExecuteFile(Append(p), st, uncreatable).store;
    assert saved.files[p] == before + Serialize(st.history);
    Text.LinesConcat(before, Serialize(st.history));
    LinesOfSerialize(st.history);
    var loaded := ExecuteFile(Read(p), saved.(history := later), uncreatable).store;
    assert loaded.history == later + Text.Lines(before + Serialize(st.history));
  }
}
