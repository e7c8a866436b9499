# FileLineCounter in Dafny

FileLineCounter is a small command-line program. It reads `key=value` options, scans a
directory for files that match a pattern, and counts the lines of each file. With an archive
pattern it counts the files each archive extracts to instead. It writes a tab-separated
report with one row per counted text. This project models the program's logic and proves
properties of it:

- the option loop, which turns command-line tokens into a dictionary;
- the decisions that follow: show the manual, reject the input directory, or run with a
  configuration (pattern, recursion, archive mode, report path);
- the construction of the report: the header, then one row per file or per extracted text;
- the helpers `GetLastFolder` and `LinesCount`, together with the .NET behaviour they rely
  on: `TextReader.ReadLine`, `String.Split`, `String.Trim`, `ToLowerInvariant`, `IndexOf`
  and `Path.GetFileName`.

Modules, one per part of the program:

- `Wrappers`: `Option`.
- `Text`: the string primitives.
- `Paths`: `GetLastFolder` and `Path.GetFileName`.
- `Options`: the option loop.
- `Resolution`: help, invalid input or run.
- `LineReader`: `ReadLine` and `LinesCount`.
- `Report`: the rows and the report loop.
- `Timestamp`: the default report name.
- `Program`: `Main` as a whole.

Everything `Main` asks of the outside world is a parameter, bundled in
`Program.Environment`:

- `Directory.Exists`;
- `DateTime.UtcNow`;
- `Directory.GetFiles`, as a function from directory, pattern and recursion flag to a path
  sequence;
- the decoded text of a file;
- the decoded texts of the files an archive extracts to.

Each function in `Text` and `Paths` is pure and stands for the .NET library call it is named
after. Where that call is a loop in the library (splitting, trimming, searching), its
contract relates the result to the input independently of the body, and lemmas supply the
inverse or reference definition:

- `Split` has `Join` (`JoinSplit`, `SplitJoin`);
- `NatToString` has `DecimalValue`;
- `ReadAll` has `Render`;
- the option dictionary has `FirstDeclaration`.

The report's shape is proved for any row formatter (`Report.PlainReport`,
`Report.ArchiveReport`). `Program.PlainRunRows` and `Program.ArchiveRunRows` then restate it
for the formatter `Main` uses, `Report.FileRow`.

Two details of `FileLineCounter/Program.cs` shape the model:

- An accepted token has both its key and its value trimmed, and its key lower-cased
  (lines 33-34).
- The default report name is built with the format `yyyyMMdd_hhmmss` (line 56), where `hh`
  is the hour on a 12-hour clock. `Program` uses that name as written. The 24-hour `HH` name,
  `Timestamp.DefaultOutput`, appears only as the corrected half of the finding below.

## Model

| member | source | states |
|---|---|---|
| Text.Trim | FileLineCounter/Program.cs:33-34 | String.Trim: the result is the infix left after the leading and trailing white space (Char.IsWhiteSpace); it neither starts nor ends with white space |
| Text.TrimIdempotent | FileLineCounter/Program.cs:33-34 | a trimmed key or value has nothing left to trim |
| Text.IndexOf | FileLineCounter/Program.cs:26 | IndexOf("="): -1 exactly when there is no '=', otherwise the position of an '=' with none before it |
| Text.IndexOfIgnoreCase | FileLineCounter/Program.cs:80 | IndexOf(t, OrdinalIgnoreCase): -1 when `t` occurs nowhere ignoring case, otherwise the first position where it does |
| Text.SplitSpec | FileLineCounter/Program.cs:113 | String.Split('\\') yields one more piece than there are backslashes, none of which holds a backslash |
| Text.JoinSplit | FileLineCounter/Program.cs:113 | joining the pieces of Split with the separator gives back the original path |
| Text.SplitJoin | FileLineCounter/Program.cs:113 | splitting the join of separator-free pieces gives back those pieces |
| Text.NatToString | FileLineCounter/Program.cs:88 | the count in a row is a non-empty run of decimal digits without a leading zero |
| Text.NatToStringRoundTrip | FileLineCounter/Program.cs:95 | the rendered count reads back as the count itself |
| Paths.GetLastFolderSpec | FileLineCounter/Program.cs:111-119 | a path without '\\' comes back unchanged ('/' is not a separator); otherwise the result is the text between the last two backslashes (or from the start), holding no backslash |
| Paths.FileNameSpec | FileLineCounter/Program.cs:95 | Path.GetFileName returns the longest suffix without '\\' or '/', preceded by a separator whenever it is not the whole path |
| Options.ParseToken | FileLineCounter/Program.cs:26-31 | a token is ignored exactly when it has no '=' or starts with '=' |
| Options.ParseTokenCutsAtFirstEquals | FileLineCounter/Program.cs:26-34 | an accepted token is cut at its first '=': key is the trimmed, lower-cased text before it, value the trimmed text after it |
| Options.ParseTokenSplitsAtFirstEquals | FileLineCounter/Program.cs:33-34 | for a non-empty key without '=', `key=value` yields Lower(Trim(key)) and Trim(value), later '=' characters staying in the value |
| Options.Parse | FileLineCounter/Program.cs:22-40 | the dictionary never has more entries than there are tokens |
| Options.CollectFirstWins | FileLineCounter/Program.cs:36-39 | over parsed tokens, a key is present exactly when some token names it, with the value of the first token that does |
| Options.ParseFirstWins | FileLineCounter/Program.cs:24-39 | over the command line, a key is present exactly when some token names it, and its value is that of the first such token |
| Options.MalformedTokenIgnored | FileLineCounter/Program.cs:26-31 | a token without '=' or starting with '=' leaves the dictionary unchanged |
| Options.RepeatedKeyIgnored | FileLineCounter/Program.cs:36-39 | a token whose key is already present leaves the dictionary unchanged |
| Options.ParseKeepsEarlierEntries | FileLineCounter/Program.cs:36-39 | later tokens never change or remove an entry earlier tokens made |
| Options.ReadParameter | FileLineCounter/Program.cs:26-39 | one pass of the loop keeps every entry with its value, and adds a key only when the token is accepted and its key is new, with the token's trimmed value |
| Options.ReadParameters | FileLineCounter/Program.cs:22-40 | the loop builds the dictionary that the first-wins definition describes |
| Resolution.Resolve | FileLineCounter/Program.cs:42-80 | Help exactly when the dictionary is empty or has `help`; otherwise InvalidInput exactly when `input` is missing or names no directory; a run keeps a given `output` and defaults only an absent one, takes `fileformat` or `*.txt`, recurses exactly for `all`, and is in archive mode exactly when the pattern contains `zip` |
| Resolution.HelpOverridesEverything | FileLineCounter/Program.cs:42-46 | with `help` present no other option and no state of the file system matters |
| Resolution.RecursiveIff | FileLineCounter/Program.cs:71-75 | recursion is on exactly when `searchoption` is the three letters a, l, l in any case |
| Resolution.ArchiveIff | FileLineCounter/Program.cs:80 | archive mode is on exactly when `zip` occurs somewhere in the pattern in some letter case |
| Resolution.DefaultPatternIsPlain | FileLineCounter/Program.cs:65 | the default pattern `*.txt` never selects archive mode |
| LineReader.ReadLine | FileLineCounter/Program.cs:150 | ReadLine gives null only at the end of the text; otherwise a line without breaks whose characters and terminator are a prefix of the text; an unterminated line is the last and is not empty; a lone '\r' is not followed by '\n' |
| LineReader.ReadAll | FileLineCounter/Program.cs:150 | the reader yields no line exactly when the text is empty |
| LineReader.RenderReadAll | FileLineCounter/Program.cs:150 | the lines read, with their terminators, make up the whole text |
| LineReader.ReadAllWellFormed | FileLineCounter/Program.cs:150 | whatever the text, the lines read contain no break; only the last may be unterminated (then it is non-empty), and no '\r' line is followed by an empty '\n' line |
| LineReader.ReadAllRender | FileLineCounter/Program.cs:150 | reading the text of any well-formed line sequence yields exactly those lines, so K terminated lines plus a non-empty tail give K + 1 |
| LineReader.LinesCount | FileLineCounter/Program.cs:144-156 | the loop counts exactly the lines ReadLine yields before it returns null |
| LineReader.LineCountClosedForm | FileLineCounter/Program.cs:144-156 | the count is the number of terminators ("\r\n" as one) plus one for a non-empty unterminated tail; empty text counts 0 |
| Report.RowFields | FileLineCounter/Program.cs:88 | a row splits on tabs into name, count and folder, and the count reads back as the number, when name and folder hold no tab |
| Report.ReportLines | FileLineCounter/Program.cs:63 | every report starts with the header `FILE\tLINES\tFOLDER` |
| Report.EntryTalliesSpec | FileLineCounter/Program.cs:85-89 | an archive contributes one row per extracted text, in listing order, each labelled with the archive's path |
| Report.TalliesConcat | FileLineCounter/Program.cs:77-97 | enumeration order is kept: the rows of two runs of files are those of the first, then those of the second |
| Report.PlainTallies | FileLineCounter/Program.cs:92-96 | plain mode: exactly one row per enumerated file, in order, counting that file's text |
| Report.PlainReport | FileLineCounter/Program.cs:63-96 | plain mode: the header then exactly one row per enumerated file, row i + 1 being file i's |
| Report.ArchiveTallies | FileLineCounter/Program.cs:77-91 | archive mode: one row per extracted text over all archives, and the j-th text of the i-th archive is counted right after the texts of the archives enumerated before it |
| Report.ArchiveReport | FileLineCounter/Program.cs:63-91 | archive mode: the header, then one row per extracted text; the row of the j-th text of the i-th archive follows those of the earlier archives' texts, and every row is the row of some archive's text under that archive's path |
| Report.CountRow | FileLineCounter/Program.cs:93-95 | when the name and the folder hold no tab, the row splits on tabs into the matched path's file name, the number of lines ReadLine yields on the text, and the path's last folder, the count reading back as that number |
| Report.WriteRows | FileLineCounter/Program.cs:63-97 | the report loop writes exactly the header and the rows above, in order |
| Timestamp.Pad2 | FileLineCounter/Program.cs:56 | two-digit fields are exactly two digits denoting the value |
| Timestamp.Pad4 | FileLineCounter/Program.cs:56 | the year field is exactly four digits denoting the year |
| Timestamp.Hour12 | FileLineCounter/Program.cs:56 | `hh` is an hour from 1 to 12 equal to the hour modulo 12 |
| Timestamp.AsWrittenNamesCollide | FileLineCounter/Program.cs:56 | as written, the default name of a time before noon equals that of the time twelve hours later |
| Timestamp.AsWrittenNotInjective | FileLineCounter/Program.cs:56 | as written, two different times share a default report name |
| Timestamp.DefaultOutputInjective | FileLineCounter/Program.cs:56 | the corrected name with `HH`: different times never share a default report name |
| Program.RunProgram | FileLineCounter/Program.cs:42-60 | the manual exactly for an empty dictionary or `help`; otherwise a rejection exactly when `input` is missing or names no directory, and a report exactly when it names one, starting with the header |
| Program.Execute | FileLineCounter/Program.cs:22-97 | Main's steps in order compute the effect the functional model describes |
| Program.NoArgumentsShowsManual | FileLineCounter/Program.cs:42-46 | without tokens the manual is shown |
| Program.NoReportWithoutInputDirectory | FileLineCounter/Program.cs:48-52 | when no token names `input`, or the first that does names a missing directory, no report is written |
| Program.AfternoonRunReusesMorningPath | FileLineCounter/Program.cs:54-60 | without `output`, a run twelve hours after a morning run writes to the same path, so it overwrites the morning report |
| Program.ReportPath | FileLineCounter/Program.cs:54-60 | the report goes to the first `output` value when given, otherwise to `FileLineCounter_` + the UTC time in `yyyyMMdd_hhmmss` + `.csv` |
| Program.DefaultRunIsPlain | FileLineCounter/Program.cs:65-96 | without `fileformat` the pattern is `*.txt` and the report has one row per enumerated file after the header |
| Program.PlainRunRows | FileLineCounter/Program.cs:77-96 | a plain run's row i + 1 is file i's name, the number of lines of its text, and its last folder |
| Program.ArchiveRunRows | FileLineCounter/Program.cs:77-91 | an archive run has one row per extracted text; the row of the j-th text of the i-th archive comes after those of the earlier archives' texts and carries the archive's file name and last folder and that text's line count |

## Left out

- Directory.Exists, Directory.GetFiles and glob matching (lines 48, 77, 85) are functions in
  `Program.Environment`. So is the order of enumeration. The glob rules, including .NET's
  three-letter extension quirk, are not modelled.
- The superset property of `searchoption=all` is not stated. It is a property of the file
  system's enumeration, which is a parameter here.
- ZipFile.ExtractToDirectory, the `<file>_tmp` folder and RemoveTempFolder (lines 82-90 and
  125-137) are modelled as one function. It gives the decoded texts of the top-level files an
  archive extracts to, in listing order.
- UTF-8 decoding, byte-order marks, StreamReader and StreamWriter (lines 60, 147) are left
  out. Texts are already-decoded character sequences. The report is its sequence of lines,
  without WriteLine's terminators, and overwriting an existing file is not modelled.
- Console output is not modelled. That covers the manual's text (lines 161-167), the "Ignored
  parameter" and "Invalid input directory" messages, and printed exception messages. They
  appear only as the outcomes `ShowManual` and `RejectInput`.
- The catch-all exception handler (lines 100-103) is not modelled: the environment's
  functions are total. Runs that would throw are therefore not modelled, and neither is the
  partial report they leave behind. Examples: an output path that cannot be opened, a `zip`
  pattern that matches a non-archive, an existing `_tmp` folder.
- `args == null` (lines 16-20) cannot be represented: the arguments are a sequence. No
  arguments at all still lead to the manual (`Program.NoArgumentsShowsManual`).
- ToLowerInvariant and OrdinalIgnoreCase are modelled for ASCII letters only. Other case
  mappings of the invariant culture are not modelled.
- Path.GetFileName is modelled with the Windows separators '\\' and '/'. Drive-relative roots
  such as `C:name` are not special-cased.
- `long` counts are unbounded naturals. An overflow would need more than 2^63 lines.
- Report tabs are not escaped. `Report.RowFields` therefore requires that the name and the
  folder hold no tab.
- DateTime.UtcNow is a parameter. Days are validated only to 1-31, because nothing depends on
  month lengths.
- DateTime.ToString is modelled with the Gregorian calendar and ASCII digits. A current
  culture with another calendar would format other digits; that is not modelled.

## Findings

| source | as written | input that shows it | evidently intended | confidence | as-written member | corrected member |
|---|---|---|---|---|---|---|
| FileLineCounter/Program.cs:56 | the default report name uses the format `yyyyMMdd_hhmmss`, where `hh` is the 12-hour hour with no AM/PM marker | two runs without `output` on the same UTC day at 01:00:00 and 13:00:00 both choose `FileLineCounter_<date>_010000.csv`; the later run overwrites the earlier report | `HH`, the 24-hour hour, so the name identifies the time of the run | medium (not executed) | Timestamp.AsWrittenNotInjective | Timestamp.DefaultOutputInjective |
