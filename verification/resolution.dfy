/**
 The decisions Main takes after reading the options: show the manual, reject the input
 directory, or run with a configuration. The file system's Directory.Exists and the
 timestamped default report name are parameters.
 */
module Resolution {
  import opened Text

  /** What a run needs: the directory to scan, the report path, the search pattern, whether
      sub-directories are searched, and whether matched files are archives. */
  datatype Config = Config(input: string, output: string, pattern: string, recursive: bool, archive: bool)

  /** The three ways Main continues. */
  datatype Resolution = Help | InvalidInput | Run(config: Config)

  /** The pattern used when no `fileformat` option is given. */
  const DefaultPattern := "*.txt"

  /** The `fileformat` value when present, `*.txt` otherwise. */
  function Pattern(parameters: map<string, string>): string {
    if "fileformat" in parameters then parameters["fileformat"] else DefaultPattern
  }

  /** SearchOption.AllDirectories exactly when `searchoption` equals `all` ignoring case. */
  predicate Recursive(parameters: map<string, string>) {
    "searchoption" in parameters && EqualsIgnoreCase(parameters["searchoption"], "all")
  }

  /** Archive mode: the pattern contains `zip` ignoring case. */
  predicate IsArchivePattern(pattern: string) {
    ContainsIgnoreCase(pattern, "zip")
  }

  /** Main from the parameter dictionary to its outcome, gate by gate. */
  function Resolve(parameters: map<string, string>, dirExists: string -> bool, defaultOutput: string): (r: Resolution)
    ensures r.Help? <==> |parameters| == 0 || "help" in parameters
    ensures r.InvalidInput? <==> !r.Help? && ("input" !in parameters || !dirExists(parameters["input"]))
    ensures r.Run? ==> "input" in parameters && dirExists(parameters["input"])
                       && r.config.input == parameters["input"]
    ensures r.Run? && "output" in parameters ==> r.config.output == parameters["output"]
    ensures r.Run? && "output" !in parameters ==> r.config.output == defaultOutput
    ensures r.Run? ==> r.config.pattern == Pattern(parameters)
                       && r.config.recursive == Recursive(parameters)
                       && r.config.archive == IsArchivePattern(r.config.pattern)
  {
    if |parameters| == 0 || "help" in parameters then Help
    else if "input" !in parameters || !dirExists(parameters["input"]) then InvalidInput
    else
      var withOutput := if "output" in parameters then parameters else parameters["output" := defaultOutput];
      var pattern := Pattern(withOutput);
      Run(Config(withOutput["input"], withOutput["output"], pattern, Recursive(withOutput), IsArchivePattern(pattern)))
  }

  /** `help` overrides every other option and the state of the file system. */
  lemma HelpOverridesEverything(parameters: map<string, string>, more: map<string, string>,
                                dirExists: string -> bool, defaultOutput: string)
    requires "help" in parameters
    ensures Resolve(parameters + more, dirExists, defaultOutput) == Help
  {
  }

  /** Recursion is on exactly for the three-letter value `all` in any letter case. */
  lemma RecursiveIff(parameters: map<string, string>)
    ensures Recursive(parameters) <==>
              "searchoption" in parameters && |parameters["searchoption"]| == 3
              && LowerChar(parameters["searchoption"][0]) == 'a'
              && LowerChar(parameters["searchoption"][1]) == 'l'
              && LowerChar(parameters["searchoption"][2]) == 'l'
  {
    if "searchoption" in parameters {
      var v := parameters["searchoption"];
      if |v| == 3 && LowerChar(v[0]) == 'a' && LowerChar(v[1]) == 'l' && LowerChar(v[2]) == 'l' {
        assert Lower(v) == "all";
      }
    }
  }

  /** `zip` in some letter case starts at position `i` of the pattern. */
  predicate ZipAt(pattern: string, i: nat) {
    i + 3 <= |pattern|
    && LowerChar(pattern[i]) == 'z' && LowerChar(pattern[i + 1]) == 'i' && LowerChar(pattern[i + 2]) == 'p'
  }

  /** Archive mode is on exactly when `zip` occurs in the pattern in some letter case. */
  lemma ArchiveIff(pattern: string)
    ensures IsArchivePattern(pattern) <==> exists i: nat :: ZipAt(pattern, i)
  {
    ContainsIgnoreCaseIff(pattern, "zip");
    forall i: nat ensures MatchesAt(pattern, "zip", i) <==> ZipAt(pattern, i) {
      if i + 3 <= |pattern| {
        var w := pattern[i..i + 3];
        assert Lower(w) == "zip" <==> LowerChar(w[0]) == 'z' && LowerChar(w[1]) == 'i' && LowerChar(w[2]) == 'p';
      }
    }
  }

  /** The default pattern selects plain text files, not archives. */
  lemma DefaultPatternIsPlain()
    ensures !IsArchivePattern(DefaultPattern)
  {
    ArchiveIff(DefaultPattern);
    forall i: nat ensures !ZipAt(DefaultPattern, i) {
      if i + 3 <= 5 {
        assert DefaultPattern[i] in "*.tx";
      }
    }
  }
}
