/**
 Main as a whole: read the options, decide between the manual, the rejection of the input
 directory and a run, and in a run produce the report's lines. Everything Main asks of the
 file system is part of an Environment given to it.
 */
module Program {
  import opened Text
  import opened Options
  import opened Resolution
  import opened Paths
  import opened Report
  import opened LineReader
  import opened Timestamp

  /** What the program asks of the outside world: Directory.Exists, DateTime.UtcNow,
      Directory.GetFiles(dir, pattern, recursive), the decoded text of a file, and the
      decoded texts of the files an archive extracts to (in listing order). */
  datatype Environment = Environment(
    dirExists: string -> bool,
    now: ValidDateTime,
    enumerate: (string, string, bool) -> seq<string>,
    read: string -> string,
    extract: string -> seq<string>)

  /** What one invocation does: print the manual, print "Invalid input directory", or write
      the report lines to a path. */
  datatype Effect = ShowManual | RejectInput | WriteReport(path: string, lines: seq<string>)

  /** The files a run counts. */
  function MatchedFiles(config: Config, env: Environment): seq<string> {
    env.enumerate(config.input, config.pattern, config.recursive)
  }

  /** The whole program, from command-line tokens to its effect. */
  function RunProgram(args: seq<string>, env: Environment): (e: Effect)
    ensures e.ShowManual? <==> |Parse(args)| == 0 || "help" in Parse(args)
    ensures e.RejectInput? <==> !e.ShowManual? && ("input" !in Parse(args) || !env.dirExists(Parse(args)["input"]))
    ensures e.WriteReport? <==> !e.ShowManual? && "input" in Parse(args) && env.dirExists(Parse(args)["input"])
    ensures e.WriteReport? ==> |e.lines| >= 1 && e.lines[0] == Header
  {
    match Resolve(Parse(args), env.dirExists, DefaultOutputAsWritten(env.now))
    case Help => ShowManual
    case InvalidInput => RejectInput
    case Run(config) =>
      WriteReport(config.output, ReportLines(config.archive, MatchedFiles(config, env), env.read, env.extract, FileRow))
  }

  /** Main step by step, as the program does it. */
  method Execute(args: seq<string>, env: Environment) returns (e: Effect)
    ensures e == RunProgram(args, env)
  {
    var parameters := ReadParameters(args);
    if |parameters| == 0 || "help" in parameters {
      return ShowManual;
    }
    if "input" !in parameters || !env.dirExists(parameters["input"]) {
      return RejectInput;
    }
    if "output" !in parameters {
      parameters := parameters["output" := DefaultOutputAsWritten(env.now)];
    }
    var fileFormat := "*.txt";
    if "fileformat" in parameters {
      fileFormat := parameters["fileformat"];
    }
    var recursive := "searchoption" in parameters && EqualsIgnoreCase(parameters["searchoption"], "all");
    var files := env.enumerate(parameters["input"], fileFormat, recursive);
    var archive := IndexOfIgnoreCase(fileFormat, "zip", 0) >= 0;
    var lines := WriteRows(archive, files, env.read, env.extract);
    e := WriteReport(parameters["output"], lines);
  }

  /** Without any token the manual is shown. */
  lemma NoArgumentsShowsManual(env: Environment)
    ensures RunProgram([], env) == ShowManual
  {
  }

  /** When no token names `input`, or the named directory does not exist, nothing is
      written; only `help` or an empty option set still lead to the manual. */
  lemma NoReportWithoutInputDirectory(args: seq<string>, env: Environment)
    requires (forall i :: 0 <= i < |args| ==> !Names(ParseToken(args[i]), "input"))
             || (exists i :: 0 <= i < |args| && Names(ParseToken(args[i]), "input")
                             && !env.dirExists(ParseToken(args[i]).value.value)
                             && forall h :: 0 <= h < i ==> !Names(ParseToken(args[h]), "input"))
    ensures !RunProgram(args, env).WriteReport?
  {
    ParseFirstWins(args, "input");
    var ts := Tokens(args);
    if exists i :: 0 <= i < |args| && Names(ParseToken(args[i]), "input")
                   && !env.dirExists(ParseToken(args[i]).value.value)
                   && forall h :: 0 <= h < i ==> !Names(ParseToken(args[h]), "input") {
      var i :| 0 <= i < |args| && Names(ParseToken(args[i]), "input")
               && !env.dirExists(ParseToken(args[i]).value.value)
               && forall h :: 0 <= h < i ==> !Names(ParseToken(args[h]), "input");
      FirstDeclarationIs(ts, "input", i);
    }
  }

  /** The report goes to the first `output` value when one is given, to the default name
      otherwise. */
  lemma ReportPath(args: seq<string>, env: Environment)
    requires RunProgram(args, env).WriteReport?
    ensures "output" in Parse(args) ==> RunProgram(args, env).path == Parse(args)["output"]
    ensures "output" !in Parse(args) ==> RunProgram(args, env).path == DefaultOutputAsWritten(env.now)
  {
  }

  /** Without `output`, a run twelve hours after a morning run, everything else equal,
      writes to the same path, so the earlier report is overwritten. */
  lemma AfternoonRunReusesMorningPath(args: seq<string>, env: Environment, later: Environment)
    requires RunProgram(args, env).WriteReport? && "output" !in Parse(args)
    requires env.now.hour < 12
    requires later.now == env.now.(hour := env.now.hour + 12)
    requires later.dirExists == env.dirExists
    ensures RunProgram(args, later).WriteReport?
    ensures RunProgram(args, later).path == RunProgram(args, env).path
  {
    ReportPath(args, env);
    ReportPath(args, later);
    AsWrittenNamesCollide(env.now);
  }

  /** Without `fileformat` the run counts the enumerated `*.txt` files, one row each. */
  lemma DefaultRunIsPlain(args: seq<string>, env: Environment)
    requires RunProgram(args, env).WriteReport? && "fileformat" !in Parse(args)
    ensures var config := Resolve(Parse(args), env.dirExists, DefaultOutputAsWritten(env.now)).config;
            && config.pattern == DefaultPattern
            && |RunProgram(args, env).lines| == |MatchedFiles(config, env)| + 1
  {
    DefaultPatternIsPlain();
    var config := Resolve(Parse(args), env.dirExists, DefaultOutputAsWritten(env.now)).config;
    PlainReport(MatchedFiles(config, env), env.read, env.extract, FileRow);
  }

  /** A plain run writes the header and then, for each enumerated file in order, its file
      name, the number of lines ReadLine yields on its text, and its last folder. */
  lemma PlainRunRows(args: seq<string>, env: Environment)
    requires RunProgram(args, env).WriteReport? && !Resolve(Parse(args), env.dirExists, DefaultOutputAsWritten(env.now)).config.archive
    ensures var files := MatchedFiles(Resolve(Parse(args), env.dirExists, DefaultOutputAsWritten(env.now)).config, env);
            var lines := RunProgram(args, env).lines;
            && |lines| == |files| + 1
            && forall i :: 0 <= i < |files| ==>
                 lines[i + 1] == Row(FileName(files[i]), LineTotal(env.read(files[i])), GetLastFolder(files[i]))
  {
    var files := MatchedFiles(Resolve(Parse(args), env.dirExists, DefaultOutputAsWritten(env.now)).config, env);
    PlainReport(files, env.read, env.extract, FileRow);
  }

  /** `row` names the archive by its file name and last folder and counts one of the texts
      it extracted to. */
  predicate ArchiveEntryRow(row: string, archive: string, entries: seq<string>) {
    exists j :: 0 <= j < |entries| && row == Row(FileName(archive), LineTotal(entries[j]), GetLastFolder(archive))
  }

  /** The row of the j-th text the i-th archive extracted to carries the archive's file name
      and last folder and that text's count, and follows the header and the rows of the
      texts of the archives enumerated before it. */
  predicate ArchiveRowAt(lines: seq<string>, files: seq<string>, extract: string -> seq<string>, i: int, j: int) {
    && 0 <= i < |files| && 0 <= j < |extract(files[i])|
    && TotalEntries(files[..i], extract) + j + 1 < |lines|
    && lines[TotalEntries(files[..i], extract) + j + 1]
       == Row(FileName(files[i]), LineTotal(extract(files[i])[j]), GetLastFolder(files[i]))
  }

  /** An archive run writes the header and one row per extracted text, each at its place in
      enumeration and listing order; each row carries the file name and last folder of the
      archive the text came from, and that text's count. */
  lemma ArchiveRunRows(args: seq<string>, env: Environment)
    requires RunProgram(args, env).WriteReport? && Resolve(Parse(args), env.dirExists, DefaultOutputAsWritten(env.now)).config.archive
    ensures var files := MatchedFiles(Resolve(Parse(args), env.dirExists, DefaultOutputAsWritten(env.now)).config, env);
            var lines := RunProgram(args, env).lines;
            && |lines| == TotalEntries(files, env.extract) + 1
            && (forall i, j :: 0 <= i < |files| && 0 <= j < |env.extract(files[i])| ==>
                  ArchiveRowAt(lines, files, env.extract, i, j))
            && forall k :: 1 <= k < |lines| ==>
                 exists i :: 0 <= i < |files| && ArchiveEntryRow(lines[k], files[i], env.extract(files[i]))
  {
    var files := MatchedFiles(Resolve(Parse(args), env.dirExists, DefaultOutputAsWritten(env.now)).config, env);
    var lines := RunProgram(args, env).lines;
    ArchiveReport(files, env.read, env.extract, FileRow);
    forall i, j | 0 <= i < |files| && 0 <= j < |env.extract(files[i])|
      ensures ArchiveRowAt(lines, files, env.extract, i, j)
    {
      assert ReportedAt(lines, files, env.extract, FileRow, i, j);
    }
    forall k | 1 <= k < |lines|
      ensures exists i :: 0 <= i < |files| && ArchiveEntryRow(lines[k], files[i], env.extract(files[i]))
    {
      var i :| 0 <= i < |files| && IsArchiveRow(lines[k], files[i], env.extract(files[i]), FileRow);
      var j :| 0 <= j < |env.extract(files[i])| && lines[k] == FileRow(files[i], env.extract(files[i])[j]);
      assert ArchiveEntryRow(lines[k], files[i], env.extract(files[i]));
    }
  }
}
