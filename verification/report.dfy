/**
 The report Main writes: a header, then one tab-separated row per matched file, or, when the
 pattern names archives, one row per file extracted from each archive, labelled with the
 archive's name and folder. The enumerated paths, the decoded text of each file and the
 decoded texts of the files an archive extracts to are inputs.
 */
module Report {
  import opened Text
  import opened Paths
  import opened LineReader

  /** The first line of every report. */
  const Header := "FILE\tLINES\tFOLDER"

  /** One report line: name, line count and folder, separated by tabs. */
  function Row(name: string, count: nat, folder: string): string {
    name + "\t" + NatToString(count) + "\t" + folder
  }

  /** A row splits back on tabs into its three fields, the count reading back as itself,
      as long as the name and the folder hold no tab (the report does not escape them). */
  lemma RowFields(name: string, count: nat, folder: string)
    requires '\t' !in name && '\t' !in folder
    ensures Split(Row(name, count, folder), '\t') == [name, NatToString(count), folder]
    ensures DecimalValue(Split(Row(name, count, folder), '\t')[1]) == count
  {
    var digits := NatToString(count);
    var parts := [name, digits, folder];
    assert parts[..2] == [name, digits] && [name, digits][..1] == [name];
    assert Join([name, digits], '\t') == name + "\t" + digits;
    assert Join(parts, '\t') == Row(name, count, folder);
    SplitJoin(parts, '\t');
    NatToStringRoundTrip(count);
  }

  /** One report row before formatting: the matched path whose name and folder label the
      row, and the text whose lines it counts. */
  datatype Tally = Tally(path: string, text: string)

  /** The row Main writes for `text` under the matched path `path`: the path's file name,
      the number of lines ReadLine yields on the text, and the path's last folder. */
  function FileRow(path: string, text: string): string {
    Row(FileName(path), LineTotal(text), GetLastFolder(path))
  }

  /** The tallies of the texts an archive extracted to, all labelled with the archive. */
  function EntryTallies(archive: string, entries: seq<string>): seq<Tally> {
    if |entries| == 0 then []
    else EntryTallies(archive, entries[..|entries| - 1]) + [Tally(archive, entries[|entries| - 1])]
  }

  /** One tally per extracted text, in extraction order, each under the archive's path. */
  lemma {:induction false} EntryTalliesSpec(archive: string, entries: seq<string>)
    ensures |EntryTallies(archive, entries)| == |entries|
    ensures forall j :: 0 <= j < |entries| ==> EntryTallies(archive, entries)[j] == Tally(archive, entries[j])
    decreases |entries|
  {
    if |entries| > 0 {
      var n := |entries| - 1;
      EntryTalliesSpec(archive, entries[..n]);
      assert forall j :: 0 <= j < n ==> entries[..n][j] == entries[j];
    }
  }

  /** The tallies one matched file contributes. */
  function FileTallies(archiveMode: bool, file: string, read: string -> string, extract: string -> seq<string>): seq<Tally> {
    if archiveMode then EntryTallies(file, extract(file)) else [Tally(file, read(file))]
  }

  /** The tallies of all matched files, in enumeration order. */
  function Tallies(archiveMode: bool, files: seq<string>, read: string -> string, extract: string -> seq<string>): seq<Tally> {
    if |files| == 0 then []
    else Tallies(archiveMode, files[..|files| - 1], read, extract) + FileTallies(archiveMode, files[|files| - 1], read, extract)
  }

  /** Each tally formatted as a row, in order. Main formats with FileRow; the shape of the
      report holds whatever the formatter, so the lemmas below take it as a parameter. */
  function FormatRows(ts: seq<Tally>, format: (string, string) -> string): (rows: seq<string>)
    ensures |rows| == |ts|
    ensures forall i :: 0 <= i < |ts| ==> rows[i] == format(ts[i].path, ts[i].text)
  {
    seq(|ts|, i requires 0 <= i < |ts| => format(ts[i].path, ts[i].text))
  }

  /** The whole report: the header, then the rows. */
  function ReportLines(archiveMode: bool, files: seq<string>, read: string -> string,
                       extract: string -> seq<string>, format: (string, string) -> string): (lines: seq<string>)
    ensures |lines| >= 1 && lines[0] == Header
  {
    [Header] + FormatRows(Tallies(archiveMode, files, read, extract), format)
  }

  /** One more file contributes its own tallies after the others'. */
  lemma TalliesSnoc(archiveMode: bool, files: seq<string>, file: string,
                    read: string -> string, extract: string -> seq<string>)
    ensures Tallies(archiveMode, files + [file], read, extract)
         == Tallies(archiveMode, files, read, extract) + FileTallies(archiveMode, file, read, extract)
  {
    assert (files + [file])[..|files|] == files;
  }

  /** Appending is associative. */
  lemma AppendAssoc<T>(x: seq<T>, y: seq<T>, z: seq<T>)
    ensures (x + y) + z == x + (y + z)
  {
  }

  /** Enumeration order is kept: the tallies of two runs of files are those of the first
      followed by those of the second. */
  lemma {:induction false} TalliesConcat(archiveMode: bool, a: seq<string>, b: seq<string>,
                                         read: string -> string, extract: string -> seq<string>)
    ensures Tallies(archiveMode, a + b, read, extract) == Tallies(archiveMode, a, read, extract) + Tallies(archiveMode, b, read, extract)
    decreases |b|
  {
    if |b| == 0 {
      assert a + b == a;
    } else {
      var init, last := b[..|b| - 1], b[|b| - 1];
      assert a + b == (a + init) + [last] && b == init + [last];
      TalliesConcat(archiveMode, a, init, read, extract);
      TalliesSnoc(archiveMode, a + init, last, read, extract);
      TalliesSnoc(archiveMode, init, last, read, extract);
      AppendAssoc(Tallies(archiveMode, a, read, extract), Tallies(archiveMode, init, read, extract),
                  FileTallies(archiveMode, last, read, extract));
    }
  }

  /** Plain mode: exactly one tally per enumerated file, in order, counting that file. */
  lemma {:induction false} PlainTallies(files: seq<string>, read: string -> string, extract: string -> seq<string>)
    ensures |Tallies(false, files, read, extract)| == |files|
    ensures forall i :: 0 <= i < |files| ==> Tallies(false, files, read, extract)[i] == Tally(files[i], read(files[i]))
    decreases |files|
  {
    if |files| > 0 {
      var n := |files| - 1;
      var init := files[..n];
      PlainTallies(init, read, extract);
      var ts := Tallies(false, files, read, extract);
      assert ts == Tallies(false, init, read, extract) + [Tally(files[n], read(files[n]))];
      forall i | 0 <= i < |files| ensures ts[i] == Tally(files[i], read(files[i])) {
        if i < n {
          assert files[i] == init[i];
        }
      }
    }
  }

  /** Plain mode report: the header and then exactly one row per enumerated file, in order,
      with that file's name, line count and folder. */
  lemma PlainReport(files: seq<string>, read: string -> string, extract: string -> seq<string>, format: (string, string) -> string)
    ensures |ReportLines(false, files, read, extract, format)| == |files| + 1
    ensures forall i :: 0 <= i < |files| ==>
              ReportLines(false, files, read, extract, format)[i + 1] == format(files[i], read(files[i]))
  {
    PlainTallies(files, read, extract);
  }

  /** The number of extracted texts over all archives. */
  function TotalEntries(files: seq<string>, extract: string -> seq<string>): nat {
    if |files| == 0 then 0
    else TotalEntries(files[..|files| - 1], extract) + |extract(files[|files| - 1])|
  }

  /** `t` tallies one of the texts `archive` extracted to, under the archive's path. */
  predicate IsEntryTally(t: Tally, archive: string, entries: seq<string>) {
    exists j :: 0 <= j < |entries| && t == Tally(archive, entries[j])
  }

  /** Archive mode: one tally per extracted text over all archives. */
  lemma {:induction false} ArchiveTallyCount(files: seq<string>, read: string -> string, extract: string -> seq<string>)
    ensures |Tallies(true, files, read, extract)| == TotalEntries(files, extract)
    decreases |files|
  {
    if |files| > 0 {
      var n := |files| - 1;
      ArchiveTallyCount(files[..n], read, extract);
      EntryTalliesSpec(files[n], extract(files[n]));
    }
  }

  /** Archive mode, by position: the j-th text of the i-th archive is tallied right after the
      texts of the archives enumerated before it. */
  lemma {:induction false} ArchiveTallyAt(files: seq<string>, read: string -> string, extract: string -> seq<string>,
                                          i: nat, j: nat)
    requires i < |files| && j < |extract(files[i])|
    ensures TotalEntries(files[..i], extract) + j < |Tallies(true, files, read, extract)|
    ensures Tallies(true, files, read, extract)[TotalEntries(files[..i], extract) + j] == Tally(files[i], extract(files[i])[j])
    decreases |files|
  {
    var n := |files| - 1;
    var init := files[..n];
    var head := Tallies(true, init, read, extract);
    var last := EntryTallies(files[n], extract(files[n]));
    assert Tallies(true, files, read, extract) == head + last;
    ArchiveTallyCount(init, read, extract);
    EntryTalliesSpec(files[n], extract(files[n]));
    if i < n {
      assert files[..i] == init[..i] && files[i] == init[i];
      ArchiveTallyAt(init, read, extract, i, j);
    } else {
      assert files[..i] == init;
      assert (head + last)[|head| + j] == last[j];
    }
  }

  /** The j-th text the i-th archive extracted to is tallied, under that archive's path,
      right after the texts of the archives enumerated before it. */
  predicate TalliedAt(ts: seq<Tally>, files: seq<string>, extract: string -> seq<string>, i: int, j: int) {
    && 0 <= i < |files| && 0 <= j < |extract(files[i])|
    && TotalEntries(files[..i], extract) + j < |ts|
    && ts[TotalEntries(files[..i], extract) + j] == Tally(files[i], extract(files[i])[j])
  }

  /** Archive mode: one tally per extracted text, and every extracted text of every archive
      is tallied at its place in enumeration and listing order. */
  lemma ArchiveTallies(files: seq<string>, read: string -> string, extract: string -> seq<string>)
    ensures |Tallies(true, files, read, extract)| == TotalEntries(files, extract)
    ensures forall i, j :: 0 <= i < |files| && 0 <= j < |extract(files[i])| ==>
              TalliedAt(Tallies(true, files, read, extract), files, extract, i, j)
  {
    ArchiveTallyCount(files, read, extract);
    forall i, j | 0 <= i < |files| && 0 <= j < |extract(files[i])|
      ensures TalliedAt(Tallies(true, files, read, extract), files, extract, i, j)
    {
      ArchiveTallyAt(files, read, extract, i, j);
    }
  }

  /** Archive mode: every tally counts one of the texts some enumerated archive extracted to,
      under that archive's path. */
  lemma {:induction false} ArchiveTalliesBelong(files: seq<string>, read: string -> string, extract: string -> seq<string>)
    ensures |Tallies(true, files, read, extract)| == TotalEntries(files, extract)
    ensures forall k :: 0 <= k < |Tallies(true, files, read, extract)| ==>
              exists i :: 0 <= i < |files| && IsEntryTally(Tallies(true, files, read, extract)[k], files[i], extract(files[i]))
    decreases |files|
  {
    if |files| > 0 {
      var n := |files| - 1;
      var init := files[..n];
      ArchiveTalliesBelong(init, read, extract);
      var ts := Tallies(true, files, read, extract);
      var head := Tallies(true, init, read, extract);
      var last := EntryTallies(files[n], extract(files[n]));
      EntryTalliesSpec(files[n], extract(files[n]));
      assert ts == head + last;
      forall k | 0 <= k < |ts|
        ensures exists i :: 0 <= i < |files| && IsEntryTally(ts[k], files[i], extract(files[i]))
      {
        if k < |head| {
          var i :| 0 <= i < |init| && IsEntryTally(head[k], init[i], extract(init[i]));
          assert files[i] == init[i];
        } else {
          assert IsEntryTally(ts[k], files[n], extract(files[n])) by {
            assert ts[k] == last[k - |head|];
          }
        }
      }
    }
  }

  /** `row` is the row of one of the texts `archive` extracted to. */
  predicate IsArchiveRow(row: string, archive: string, entries: seq<string>, format: (string, string) -> string) {
    exists j :: 0 <= j < |entries| && row == format(archive, entries[j])
  }

  /** The row of the j-th text the i-th archive extracted to follows the header and the rows
      of the texts of the archives enumerated before it. */
  predicate ReportedAt(lines: seq<string>, files: seq<string>, extract: string -> seq<string>,
                       format: (string, string) -> string, i: int, j: int) {
    && 0 <= i < |files| && 0 <= j < |extract(files[i])|
    && TotalEntries(files[..i], extract) + j + 1 < |lines|
    && lines[TotalEntries(files[..i], extract) + j + 1] == format(files[i], extract(files[i])[j])
  }

  /** Archive mode report, by position. */
  lemma ArchiveReportAt(files: seq<string>, read: string -> string, extract: string -> seq<string>, format: (string, string) -> string)
    ensures forall i, j :: 0 <= i < |files| && 0 <= j < |extract(files[i])| ==>
              ReportedAt(ReportLines(true, files, read, extract, format), files, extract, format, i, j)
  {
    ArchiveTallies(files, read, extract);
    var ts := Tallies(true, files, read, extract);
    var lines := ReportLines(true, files, read, extract, format);
    forall i, j | 0 <= i < |files| && 0 <= j < |extract(files[i])|
      ensures ReportedAt(lines, files, extract, format, i, j)
    {
      assert TalliedAt(ts, files, extract, i, j);
      var p := TotalEntries(files[..i], extract) + j;
      assert lines[p + 1] == FormatRows(ts, format)[p];
    }
  }

  /** Archive mode report: the header and one row per extracted text, every row carrying the
      file name and last folder of one of the enumerated archives, and the row of each text
      of each archive at its place in enumeration and listing order. */
  lemma ArchiveReport(files: seq<string>, read: string -> string, extract: string -> seq<string>, format: (string, string) -> string)
    ensures |ReportLines(true, files, read, extract, format)| == TotalEntries(files, extract) + 1
    ensures forall i, j :: 0 <= i < |files| && 0 <= j < |extract(files[i])| ==>
              ReportedAt(ReportLines(true, files, read, extract, format), files, extract, format, i, j)
    ensures forall k :: 1 <= k < |ReportLines(true, files, read, extract, format)| ==>
              exists i :: 0 <= i < |files| && IsArchiveRow(ReportLines(true, files, read, extract, format)[k], files[i], extract(files[i]), format)
  {
    ArchiveReportAt(files, read, extract, format);
    ArchiveReportBelong(files, read, extract, format);
  }

  /** Archive mode report: every row after the header is the row of a text some enumerated
      archive extracted to, under that archive's path. */
  lemma ArchiveReportBelong(files: seq<string>, read: string -> string, extract: string -> seq<string>, format: (string, string) -> string)
    ensures |ReportLines(true, files, read, extract, format)| == TotalEntries(files, extract) + 1
    ensures forall k :: 1 <= k < |ReportLines(true, files, read, extract, format)| ==>
              exists i :: 0 <= i < |files| && IsArchiveRow(ReportLines(true, files, read, extract, format)[k], files[i], extract(files[i]), format)
  {
    ArchiveTalliesBelong(files, read, extract);
    var ts := Tallies(true, files, read, extract);
    var lines := ReportLines(true, files, read, extract, format);
    forall k | 1 <= k < |lines|
      ensures exists i :: 0 <= i < |files| && IsArchiveRow(lines[k], files[i], extract(files[i]), format)
    {
      var i :| 0 <= i < |files| && IsEntryTally(ts[k - 1], files[i], extract(files[i]));
      var j :| 0 <= j < |extract(files[i])| && ts[k - 1] == Tally(files[i], extract(files[i])[j]);
      assert lines[k] == format(files[i], extract(files[i])[j]);
    }
  }

  /** Formatting one more tally appends one more row. */
  lemma FormatRowsSnoc(ts: seq<Tally>, t: Tally, format: (string, string) -> string)
    ensures FormatRows(ts + [t], format) == FormatRows(ts, format) + [format(t.path, t.text)]
  {
    assert forall i :: 0 <= i < |ts| ==> (ts + [t])[i] == ts[i];
  }

  /** The row Main writes for one text: LinesCount over the text, labelled with the matched
      path's file name and last folder. */
  method CountRow(path: string, text: string) returns (row: string)
    ensures row == FileRow(path, text)
    ensures '\t' !in FileName(path) && '\t' !in GetLastFolder(path) ==>
              var fields := Split(row, '\t');
              && fields == [FileName(path), NatToString(LineTotal(text)), GetLastFolder(path)]
              && DecimalValue(fields[1]) == |ReadAll(text)|
  {
    var total := LinesCount(text);
    row := Row(FileName(path), total, GetLastFolder(path));
    if '\t' !in FileName(path) && '\t' !in GetLastFolder(path) {
      RowFields(FileName(path), total, GetLastFolder(path));
    }
  }

  /** The loop of Main that writes the rows: each matched file is either counted, or
      extracted and each extracted text counted. */
  method WriteRows(archiveMode: bool, files: seq<string>, read: string -> string, extract: string -> seq<string>)
    returns (lines: seq<string>)
    ensures lines == ReportLines(archiveMode, files, read, extract, FileRow)
  {
    lines := [Header];
    ghost var done: seq<Tally> := [];
    for i := 0 to |files|
      invariant done == Tallies(archiveMode, files[..i], read, extract)
      invariant lines == [Header] + FormatRows(done, FileRow)
    {
      var file := files[i];
      assert files[..i + 1] == files[..i] + [file];
      TalliesSnoc(archiveMode, files[..i], file, read, extract);
      if archiveMode {
        var entries := extract(file);
        ghost var before := done;
        for j := 0 to |entries|
          invariant done == before + EntryTallies(file, entries[..j])
          invariant lines == [Header] + FormatRows(done, FileRow)
        {
          var t := Tally(file, entries[j]);
          assert entries[..j + 1][..j] == entries[..j];
          AppendAssoc(before, EntryTallies(file, entries[..j]), [t]);
          var row := CountRow(file, entries[j]);
          FormatRowsSnoc(done, t, FileRow);
          AppendAssoc([Header], FormatRows(done, FileRow), [row]);
          lines := lines + [row];
          done := done + [t];
        }
        assert entries[..|entries|] == entries;
      } else {
        var t := Tally(file, read(file));
        var row := CountRow(file, read(file));
        FormatRowsSnoc(done, t, FileRow);
        AppendAssoc([Header], FormatRows(done, FileRow), [row]);
        lines := lines + [row];
        done := done + [t];
      }
    }
    assert files[..|files|] == files;
  }
}
