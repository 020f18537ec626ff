# minigrep, modelled in Dafny

minigrep prints the lines of a file that contain a query string. `Config::new`
reads the query and the file name from the command line. It sets the case
flag from the environment variable `CASE_INSENSITIVE`. `run` selects lines
with `search` or `search_case_insensitive`, depending on that flag. It then
prints each selected line with every occurrence of the query wrapped in an
ANSI colour sequence.

The model is in four modules:

- `Text` (`text.dfy`) holds the string primitives the library relies on:
  - containment (`str::contains`)
  - ASCII lower-casing (`str::to_lowercase`)
  - line splitting (`str::lines`)
- `Matcher` (`matcher.dfy`) holds `search` and `search_case_insensitive`.
  Each is a filter over the lines, given by a reference definition
  (`IsSelection`) that `Filter` is proved to meet.
- `Highlighter` (`highlighter.dfy`) holds `str::replace` and the highlighting
  expression of `run`. It also holds `Unmark`, the inverse that removes the
  markers again.
- `Cli` (`cli.dfy`) holds `Config::new`, the mode choice of `run`, and the
  lines `run` prints.

Line splitting follows the current `str::lines`:

- The text is split after each '\n'.
- A piece ended by '\n' loses the '\n' and one '\r' just before it.
- A final '\n' does not start an empty last line.
- The empty text has no lines.
- A '\r' at the end of a last line with no '\n' after it is kept.

The case flag comes from `env::var("CASE_INSENSITIVE").is_err()` (src/lib.rs:25).
That test is true when the variable is unset, and also when its value is not
valid Unicode, so such a value leaves the search case-sensitive. The lookup is
therefore a `VarLookup` with three outcomes (`Present`, `NotPresent`,
`NotUnicode`).

## Model

| member | source | states |
|---|---|---|
| Text.ContainsScan | src/lib.rs:61 | `contains` as a left-to-right scan: the query is a prefix of the text or is contained in the text after its first character |
| Text.Lower | src/lib.rs:85 | lowering keeps the length; each character is lowered on its own, 'A'..'Z' to 'a'..'z', every other character kept |
| Text.ContainsLower | src/lib.rs:89 | with per-character (ASCII) lowering, a line that contains the query still contains it once both are lowered |
| Text.Lines | src/lib.rs:60 | `lines` gives at most as many lines as the text has characters, and no line holds a '\n'; `LinesAfterCrLine` and `LinesKeepFinalCr` fix how a '\r' is treated |
| Text.LinesAfterCrLine | src/lib.rs:60 | a line ended by "\r\n" is the first line of the text without the '\r' and the '\n', and the rest splits on its own |
| Text.LinesKeepFinalCr | src/lib.rs:60 | a last line with no '\n' after it keeps its final '\r' |
| Text.LinesChars | src/lib.rs:60 | every character of every line is a character of the text |
| Text.LinesAfterLine | src/lib.rs:60 | a line without '\n' and without a final '\r', followed by '\n', is the first line of the text and the rest splits on its own |
| Text.LinesOfTerminated | src/lib.rs:60 | round trip: splitting the text made by writing each such line followed by '\n' gives back exactly those lines |
| Text.LinesIgnoreFinalNewline | src/lib.rs:60 | a final '\n' adds no empty last line: a text ending in an ordinary character splits the same with or without it |
| Matcher.Filter | src/lib.rs:61-62 | the filtered lines pass the test and come from the input; every passing input line is kept; never more lines than the input |
| Matcher.FilterSelects | src/lib.rs:59-62 | `Filter` meets its reference definition: its result is the lines at exactly the passing positions, in increasing position order |
| Matcher.FilterAll | src/lib.rs:61-62 | when every line passes, the result is the whole input |
| Matcher.FilterMonotone | src/lib.rs:61-62 | a test that passes fewer lines keeps a subsequence of what a looser test keeps |
| Matcher.Search | src/lib.rs:57-62 | `search` returns only lines of the text that contain the query, returns every such line, returns no more lines than the text has, and returns none for an empty text |
| Matcher.SearchSelects | src/lib.rs:57-62 | the result of `search` is exactly the containing lines, in their original order, each position once |
| Matcher.SearchCaseInsensitive | src/lib.rs:82-91 | `search_case_insensitive` returns only original, un-lowered lines whose lowered form contains the lowered query, and returns every such line; empty text gives none |
| Matcher.SearchCaseInsensitiveSelects | src/lib.rs:85-90 | the case-insensitive result is exactly the lines whose lowered form contains the lowered query, in order, each position once |
| Matcher.SearchEmptyQuery | src/lib.rs:59-62 | the empty query selects every line, in both modes |
| Matcher.SensitiveWithinInsensitive | src/lib.rs:57-91 | with per-character (ASCII) lowering, the case-sensitive result is a subsequence of the case-insensitive one for the same query and text |
| Matcher.CaseSensitiveExample | src/lib.rs:98-109 | unit test `case_sensitive`: "duct" selects only "safe, fast, productive." |
| Matcher.CaseInsensitiveExample | src/lib.rs:112-124 | unit test `case_insensitive`: "rUsT" selects "Rust:" and "Trust me.", in that order |
| Highlighter.Replace | src/lib.rs:47-50 | `replace` with a replacement at least as long as the pattern never shortens the text |
| Highlighter.Highlight | src/lib.rs:47-50 | the highlighted line is never shorter than the line |
| Highlighter.ReplaceLeftmost | src/lib.rs:47-50 | `replace` rewrites the leftmost occurrence of a non-empty pattern: the text before it is kept, the occurrence becomes the replacement, and the scan goes on after it; with `ReplaceNoMatch` this determines the result for every text, so every non-overlapping occurrence, found left to right, is replaced |
| Highlighter.HighlightLeftmost | src/lib.rs:47-50 | the leftmost occurrence of a non-empty query is wrapped in the colour markers and highlighting goes on after it |
| Highlighter.ReplaceNoMatch | src/lib.rs:47-50 | a non-empty pattern that does not occur leaves the text unchanged |
| Highlighter.ReplaceSelf | src/lib.rs:47-50 | replacing any pattern, the empty one included, by itself leaves the text unchanged |
| Highlighter.HighlightUnchangedIff | src/lib.rs:47-50 | for a non-empty query, the highlighted line equals the line exactly when the query does not occur in it |
| Highlighter.UnmarkHighlight | src/lib.rs:47-50 | round trip: removing the markers from a highlighted line gives back the line, when the line has no escape character |
| Highlighter.UnmarkHighlightEmpty | src/lib.rs:47-50 | the same round trip for the empty query |
| Highlighter.HighlightEmptySteps | src/lib.rs:47-50 | with the empty query a marker stands at every character boundary: the highlight of a character followed by `rest` is a marker, the character, then the highlight of `rest`, and the empty line becomes one marker, so a marker goes before each character and one more after the last |
| Highlighter.HighlightEmptyQuery | src/lib.rs:47-50 | with the empty query the output grows by one marker more than the line has characters, so the line always changes |
| Cli.NewConfig | src/lib.rs:12-32 | no argument after the program name gives "Didn't get a query string"; exactly one gives "Didn't get a file name"; otherwise the query is the 2nd argument and the file name the 3rd, and the search is case-sensitive exactly when the lookup of CASE_INSENSITIVE gives no value |
| Cli.NewConfigIgnoresExtraArgs | src/lib.rs:20-31 | arguments after the file name change nothing |
| Cli.NewConfigRoundTrip | src/lib.rs:12-32 | parsing the command line that names a configuration's query and file gives that configuration back |
| Cli.Selected | src/lib.rs:38-42 | the lines chosen by the mode are lines of the text, no more than it has |
| Cli.SelectedMatchIgnoringCase | src/lib.rs:38-42 | with per-character (ASCII) lowering, in either mode each selected line contains the query once both are lowered |
| Cli.SelectedIncludesExactMatches | src/lib.rs:38-42 | with per-character (ASCII) lowering, in either mode each line that contains the query as typed is selected |
| Cli.Run | src/lib.rs:44-51 | one printed line per selected line, each at least as long as the line it prints |
| Cli.RunRecoversSelection | src/lib.rs:44-51 | removing the markers from each printed line gives back the selected line, when the text has no escape character |
| Cli.RunMarksExactly | src/lib.rs:44-51 | for a non-empty query, a printed line differs from its selected line exactly when the query as typed occurs in it |
| Cli.RunSensitiveMarksEveryLine | src/lib.rs:38-50 | in case-sensitive mode with a non-empty query, every printed line carries a marker |
| Cli.InsensitiveSelectsUnmarked | src/lib.rs:41-50 | in case-insensitive mode a line can be selected yet printed unmarked: for the unit-test text and "rUsT", both selected lines are printed unchanged |

## Left out

- Reading the file (`fs::read_to_string` and its `?`, src/lib.rs:36) is I/O. `Cli.Run` takes the text as a parameter, and the read error path is not modelled.
- `println!` (src/lib.rs:45) is console output. `Cli.Run` returns the printed lines instead of writing them.
- The environment read `env::var("CASE_INSENSITIVE")` (src/lib.rs:25) is a process-environment access. Its outcome is the `VarLookup` parameter of `Cli.NewConfig`.
- `env::Args` panics on an argument that is not valid Unicode. The model's arguments are strings, so that case does not arise.
- `to_lowercase` (src/lib.rs:85, src/lib.rs:89) is Unicode lower-casing, which can change the length and depends on context. The model lowers ASCII letters only.
- Text.Lower: states ASCII lower-casing only, because Unicode lower-casing is outside the model.
- Text.ContainsLower, Matcher.SensitiveWithinInsensitive, Cli.SelectedIncludesExactMatches and Cli.SelectedMatchIgnoringCase hold for per-character lowering only. Unicode `to_lowercase` applies the final-sigma rule: the query "Σ" lowers to "σ", but the line "ΑΣ" lowers to "ας". So `search("Σ", "ΑΣ")` selects that line and `search_case_insensitive("Σ", "ΑΣ")` does not, and the case-sensitive result is then not a subsequence of the case-insensitive one.
- The results of `search` borrow slices of the text (`Vec<&str>`). The model returns copies of the lines.
- The commented-out loop in `search` (src/lib.rs:64-79) is dead code.
- The caller of `Config::new` and `run` is not part of this model.
