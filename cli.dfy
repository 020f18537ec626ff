/** The command line: `Config::new` reads the query, the file name and the
    case flag; `run` selects the lines of the file's text by the flag and
    prints each with its occurrences of the query highlighted. */
module Cli {
  import opened Text
  import opened Matcher
  import opened Highlighter

  datatype Result<T> = Ok(value: T) | Err(error: string)

  /** What looking up an environment variable can give: its value, nothing,
      or a value that is not valid Unicode. */
  datatype VarLookup = Present(value: string) | NotPresent | NotUnicode

  /** The settings of one invocation. */
  datatype Config = Config(query: string, filename: string, caseSensitive: bool)

  const NoQuery: string := "Didn't get a query string"
  const NoFileName: string := "Didn't get a file name"

  /** `env::var(..).is_err()`: the lookup failed, either because the
      variable is not set or because its value is not Unicode. */
  predicate LookupFailed(v: VarLookup) {
    v.NotPresent? || v.NotUnicode?
  }

  /** `Config::new`: the program name is skipped, the next argument is the
      query and the one after it the file name; later arguments are ignored.
      `caseInsensitive` is the lookup of the variable CASE_INSENSITIVE: the
      search is case-sensitive unless that lookup gives a value. */
  function NewConfig(args: seq<string>, caseInsensitive: VarLookup): (r: Result<Config>)
    ensures r == Err(NoQuery) <==> |args| <= 1
    ensures r == Err(NoFileName) <==> |args| == 2
    ensures r.Ok? <==> |args| >= 3
    ensures r.Ok? ==> r.value.query == args[1] && r.value.filename == args[2]
    ensures r.Ok? ==> (r.value.caseSensitive <==> !caseInsensitive.Present?)
  {
    var afterName := if args == [] then [] else args[1..];
    if afterName == [] then Err(NoQuery)
    else
      var query := afterName[0];
      var afterQuery := afterName[1..];
      if afterQuery == [] then Err(NoFileName)
      else
        var filename := afterQuery[0];
        var caseSensitive := LookupFailed(caseInsensitive);
        Ok(Config(query, filename, caseSensitive))
  }

  /** Arguments after the file name make no difference. */
  lemma NewConfigIgnoresExtraArgs(args: seq<string>, extra: seq<string>, v: VarLookup)
    requires |args| >= 3
    ensures NewConfig(args + extra, v) == NewConfig(args, v)
  {
  }

  /** A lookup that reproduces the case flag of `cfg`. */
  function LookupFor(cfg: Config): (v: VarLookup)
    ensures LookupFailed(v) == cfg.caseSensitive
  {
    if cfg.caseSensitive then NotPresent else Present("1")
  }

  /** Parsing the command line that names a configuration's query and file
      gives that configuration back, whatever the program is called. */
  lemma NewConfigRoundTrip(program: string, cfg: Config)
    ensures NewConfig([program, cfg.query, cfg.filename], LookupFor(cfg)) == Ok(cfg)
  {
  }

  /** The `if` of `run`: the lines that the mode of `cfg` selects. */
  function Selected(cfg: Config, contents: string): (r: seq<string>)
    ensures |r| <= |Lines(contents)|
    ensures forall k :: 0 <= k < |r| ==> r[k] in Lines(contents)
  {
    if cfg.caseSensitive then Search(cfg.query, contents)
    else SearchCaseInsensitive(cfg.query, contents)
  }

  /** Whatever the mode, every selected line contains the query once both
      are lowered. */
  lemma SelectedMatchIgnoringCase(cfg: Config, contents: string)
    ensures forall l :: l in Selected(cfg, contents) ==> Contains(Lower(l), Lower(cfg.query))
  {
    forall l | l in Selected(cfg, contents)
      ensures Contains(Lower(l), Lower(cfg.query))
    {
      if cfg.caseSensitive {
        ContainsLower(l, cfg.query);
      }
    }
  }

  /** Whatever the mode, every line that contains the query as typed is
      selected. */
  lemma SelectedIncludesExactMatches(cfg: Config, contents: string)
    ensures forall l :: l in Lines(contents) && Contains(l, cfg.query) ==> l in Selected(cfg, contents)
  {
    forall l | l in Lines(contents) && Contains(l, cfg.query)
      ensures l in Selected(cfg, contents)
    {
      ContainsLower(l, cfg.query);
    }
  }

  /** The lines `run` prints for the text read from the file: each selected
      line, in order, highlighted with the query as typed. */
  function Run(cfg: Config, contents: string): (out: seq<string>)
    ensures |out| == |Selected(cfg, contents)|
    ensures forall k :: 0 <= k < |out| ==> |out[k]| >= |Selected(cfg, contents)[k]|
  {
    var results := Selected(cfg, contents);
    seq(|results|, k requires 0 <= k < |results| => Highlight(results[k], cfg.query))
  }

  /** Removing the markers from what `run` prints gives back the selected
      lines, when the text holds no escape character of its own. */
  lemma RunRecoversSelection(cfg: Config, contents: string)
    requires ESC !in contents
    ensures forall k :: 0 <= k < |Run(cfg, contents)| ==>
              Unmark(Run(cfg, contents)[k], cfg.query) == Selected(cfg, contents)[k]
  {
    var sel := Selected(cfg, contents);
    LinesChars(contents);
    forall k | 0 <= k < |sel|
      ensures Unmark(Run(cfg, contents)[k], cfg.query) == sel[k]
    {
      assert ESC !in sel[k];
      UnmarkHighlight(sel[k], cfg.query);
    }
  }

  /** A printed line differs from its selected line exactly when the
      (non-empty) query as typed occurs in it. */
  lemma RunMarksExactly(cfg: Config, contents: string)
    requires cfg.query != []
    ensures forall k :: 0 <= k < |Run(cfg, contents)| ==>
              (Run(cfg, contents)[k] != Selected(cfg, contents)[k] <==> Contains(Selected(cfg, contents)[k], cfg.query))
  {
    var sel := Selected(cfg, contents);
    forall k | 0 <= k < |sel|
      ensures Run(cfg, contents)[k] != sel[k] <==> Contains(sel[k], cfg.query)
    {
      HighlightUnchangedIff(sel[k], cfg.query);
    }
  }

  /** In case-sensitive mode every printed line carries a marker. */
  lemma RunSensitiveMarksEveryLine(cfg: Config, contents: string)
    requires cfg.caseSensitive && cfg.query != []
    ensures forall k :: 0 <= k < |Run(cfg, contents)| ==> Run(cfg, contents)[k] != Selected(cfg, contents)[k]
  {
    RunMarksExactly(cfg, contents);
  }

  /** A line without the query's letter `x` is printed as it is. */
  lemma UnmarkedWithout(line: string, q: string, x: char)
    requires x in q && x !in line
    ensures Highlight(line, q) == line
  {
    MissingCharNotContained(line, q, x);
    HighlightUnchangedIff(line, q);
  }

  /** Two selected lines that do not contain the query as typed are
      printed as they are. */
  lemma RunTwoUnmarked(cfg: Config, contents: string, a: string, b: string)
    requires Selected(cfg, contents) == [a, b]
    requires Highlight(a, cfg.query) == a && Highlight(b, cfg.query) == b
    ensures Run(cfg, contents) == [a, b]
  {
  }

  /** In case-insensitive mode a line can be selected yet printed without a
      marker, because the highlighter looks for the query as typed: for the
      text of the case-insensitive unit test and the query "rUsT", both
      selected lines are printed unchanged. */
  lemma InsensitiveSelectsUnmarked(filename: string)
    ensures Run(Config("rUsT", filename, false), TrustText) == ["Rust:", "Trust me."]
  {
    CaseInsensitiveExample();
    UnmarkedWithout("Rust:", "rUsT", 'U');
    UnmarkedWithout("Trust me.", "rUsT", 'U');
    RunTwoUnmarked(Config("rUsT", filename, false), TrustText, "Rust:", "Trust me.");
  }
}
