/** The matcher: `search` and `search_case_insensitive`, both a `lines()`
    iterator filtered by a per-line test and collected in order. */
module Matcher {
  import opened Text

  /** The per-line test of each mode. The case-insensitive mode holds the
      query already lowered, as it is lowered once before filtering. */
  datatype Policy = Exact(query: string) | IgnoreCase(loweredQuery: string)

  /** The filter closure: the line itself contains the query, or the
      lowered line contains the lowered query. */
  predicate Accepts(p: Policy, line: string) {
    match p
    case Exact(q) => Contains(line, q)
    case IgnoreCase(lq) => Contains(Lower(line), lq)
  }

  /** `.filter(..).collect()`: the lines that pass the test, in order. */
  function Filter(ls: seq<string>, p: Policy): (r: seq<string>)
    ensures |r| <= |ls|
    ensures forall k :: 0 <= k < |r| ==> Accepts(p, r[k]) && r[k] in ls
    ensures forall i :: 0 <= i < |ls| && Accepts(p, ls[i]) ==> ls[i] in r
  {
    if ls == [] then []
    else if Accepts(p, ls[0]) then [ls[0]] + Filter(ls[1..], p)
    else Filter(ls[1..], p)
  }

  /** `idx` lists, strictly increasing, positions in `ls` whose lines are
      the elements of `r`, one position per element. */
  ghost predicate Indexes(idx: seq<int>, ls: seq<string>, r: seq<string>) {
    && |idx| == |r|
    && (forall k :: 0 <= k < |idx| ==> 0 <= idx[k] < |ls| && r[k] == ls[idx[k]])
    && (forall k, m :: 0 <= k < m < |idx| ==> idx[k] < idx[m])
  }

  /** The positions listed in `idx` are exactly those whose line passes `p`. */
  ghost predicate MarksPassing(idx: seq<int>, ls: seq<string>, p: Policy) {
    forall i :: 0 <= i < |ls| ==> (Accepts(p, ls[i]) <==> i in idx)
  }

  /** `r` is what filtering `ls` by `p` must give: the lines at the positions
      that pass the test, in increasing position order. So `r` keeps the
      original order, repeats no line position and misses no passing line. */
  ghost predicate IsSelection(idx: seq<int>, ls: seq<string>, p: Policy, r: seq<string>) {
    Indexes(idx, ls, r) && MarksPassing(idx, ls, p)
  }

  /** `Filter` meets its reference definition. */
  lemma {:induction false} FilterSelects(ls: seq<string>, p: Policy)
    ensures exists idx :: IsSelection(idx, ls, p, Filter(ls, p))
  {
    if ls == [] {
      assert IsSelection([], ls, p, Filter(ls, p));
    } else {
      FilterSelects(ls[1..], p);
      var rest := Filter(ls[1..], p);
      var tail :| IsSelection(tail, ls[1..], p, rest);
      ShiftIndexes(ls, tail, rest);
      ShiftMarks(ls, p, tail);
      if Accepts(p, ls[0]) {
        ConsSelects(ls, p, Shift(tail), rest);
        assert IsSelection([0] + Shift(tail), ls, p, Filter(ls, p));
      } else {
        SkipSelects(ls, p, Shift(tail), rest);
        assert IsSelection(Shift(tail), ls, p, Filter(ls, p));
      }
    }
  }

  /** Every index of `idx` moved one place on. */
  function Shift(idx: seq<int>): (r: seq<int>)
    ensures |r| == |idx|
    ensures forall k :: 0 <= k < |idx| ==> r[k] == idx[k] + 1
  {
    seq(|idx|, k requires 0 <= k < |idx| => idx[k] + 1)
  }

  /** Positions in the tail of `ls`, shifted, are the same lines'
      positions in `ls`, none of them the first. */
  lemma ShiftIndexes(ls: seq<string>, tail: seq<int>, rest: seq<string>)
    requires ls != [] && Indexes(tail, ls[1..], rest)
    ensures Indexes(Shift(tail), ls, rest)
    ensures forall k :: 0 <= k < |tail| ==> 1 <= Shift(tail)[k]
  {
  }

  /** The passing positions of the tail of `ls`, shifted, are the passing
      positions of `ls` after the first. */
  lemma ShiftMarks(ls: seq<string>, p: Policy, tail: seq<int>)
    requires ls != [] && MarksPassing(tail, ls[1..], p)
    ensures forall i :: 1 <= i < |ls| ==> (Accepts(p, ls[i]) <==> i in Shift(tail))
  {
  }

  /** A passing first line in front of a selection from the later
      positions. */
  lemma ConsSelects(ls: seq<string>, p: Policy, later: seq<int>, rest: seq<string>)
    requires ls != [] && Accepts(p, ls[0]) && Indexes(later, ls, rest)
    requires forall k :: 0 <= k < |later| ==> 1 <= later[k]
    requires forall i :: 1 <= i < |ls| ==> (Accepts(p, ls[i]) <==> i in later)
    ensures IsSelection([0] + later, ls, p, [ls[0]] + rest)
  {
  }

  /** A failing first line adds nothing to a selection from the later
      positions. */
  lemma SkipSelects(ls: seq<string>, p: Policy, later: seq<int>, rest: seq<string>)
    requires ls != [] && !Accepts(p, ls[0]) && Indexes(later, ls, rest)
    requires forall k :: 0 <= k < |later| ==> 1 <= later[k]
    requires forall i :: 1 <= i < |ls| ==> (Accepts(p, ls[i]) <==> i in later)
    ensures IsSelection(later, ls, p, rest)
  {
  }

  /** Filtering with a test that every line passes keeps every line. */
  lemma {:induction false} FilterAll(ls: seq<string>, p: Policy)
    requires forall k :: 0 <= k < |ls| ==> Accepts(p, ls[k])
    ensures Filter(ls, p) == ls
  {
    if ls != [] {
      FilterAll(ls[1..], p);
    }
  }

  /** `a` is `b` with some elements left out, the rest in their order. */
  predicate IsSubsequence(a: seq<string>, b: seq<string>)
    decreases |b|
  {
    a == [] || (b != [] && ((a[0] == b[0] && IsSubsequence(a[1..], b[1..])) || IsSubsequence(a, b[1..])))
  }

  /** A stricter test keeps a subsequence of what a looser test keeps. */
  lemma {:induction false} FilterMonotone(ls: seq<string>, p1: Policy, p2: Policy)
    requires forall k :: 0 <= k < |ls| && Accepts(p1, ls[k]) ==> Accepts(p2, ls[k])
    ensures IsSubsequence(Filter(ls, p1), Filter(ls, p2))
  {
    if ls != [] {
      FilterMonotone(ls[1..], p1, p2);
      if !Accepts(p1, ls[0]) && Accepts(p2, ls[0]) {
        assert Filter(ls, p2)[1..] == Filter(ls[1..], p2);
      }
    }
  }

  /** `search`: the lines of `contents` that contain `query`, in order. */
  function Search(query: string, contents: string): (r: seq<string>)
    ensures |r| <= |Lines(contents)|
    ensures forall k :: 0 <= k < |r| ==> Contains(r[k], query) && r[k] in Lines(contents)
    ensures forall l :: l in Lines(contents) && Contains(l, query) ==> l in r
    ensures contents == [] ==> r == []
  {
    Filter(Lines(contents), Exact(query))
  }

  /** `search_case_insensitive`: the lines of `contents` whose lowered form
      contains the lowered query, in order and with their original casing. */
  function SearchCaseInsensitive(query: string, contents: string): (r: seq<string>)
    ensures |r| <= |Lines(contents)|
    ensures forall k :: 0 <= k < |r| ==> Contains(Lower(r[k]), Lower(query)) && r[k] in Lines(contents)
    ensures forall l :: l in Lines(contents) && Contains(Lower(l), Lower(query)) ==> l in r
    ensures contents == [] ==> r == []
  {
    var lowered := Lower(query);
    Filter(Lines(contents), IgnoreCase(lowered))
  }

  /** The result of `search` is exactly the containing lines of `contents`,
      in their order and each once. */
  lemma SearchSelects(query: string, contents: string)
    ensures exists idx :: IsSelection(idx, Lines(contents), Exact(query), Search(query, contents))
  {
    FilterSelects(Lines(contents), Exact(query));
    var idx :| IsSelection(idx, Lines(contents), Exact(query), Filter(Lines(contents), Exact(query)));
    assert IsSelection(idx, Lines(contents), Exact(query), Search(query, contents));
  }

  /** The result of `search_case_insensitive` is exactly the lines of
      `contents` that contain the query when both are lowered, in their order
      and each once. */
  lemma SearchCaseInsensitiveSelects(query: string, contents: string)
    ensures exists idx :: IsSelection(idx, Lines(contents), IgnoreCase(Lower(query)),
                                      SearchCaseInsensitive(query, contents))
  {
    var ls, p := Lines(contents), IgnoreCase(Lower(query));
    FilterSelects(ls, p);
    var idx :| IsSelection(idx, ls, p, Filter(ls, p));
    assert IsSelection(idx, ls, p, SearchCaseInsensitive(query, contents));
  }

  /** Every line contains the empty query, so both modes return every line. */
  lemma SearchEmptyQuery(contents: string)
    ensures Search("", contents) == Lines(contents)
    ensures SearchCaseInsensitive("", contents) == Lines(contents)
  {
    var ls := Lines(contents);
    assert forall k :: 0 <= k < |ls| ==> OccursAt(ls[k], "", 0);
    FilterAll(ls, Exact(""));
    assert forall k :: 0 <= k < |ls| ==> OccursAt(Lower(ls[k]), "", 0);
    assert Lower("") == "";
    FilterAll(ls, IgnoreCase(Lower("")));
  }

  /** Ignoring case only adds lines: the case-sensitive result is a
      subsequence of the case-insensitive one. */
  lemma SensitiveWithinInsensitive(query: string, contents: string)
    ensures IsSubsequence(Search(query, contents), SearchCaseInsensitive(query, contents))
  {
    var ls := Lines(contents);
    forall k | 0 <= k < |ls| && Accepts(Exact(query), ls[k])
      ensures Accepts(IgnoreCase(Lower(query)), ls[k])
    {
      ContainsLower(ls[k], query);
    }
    FilterMonotone(ls, Exact(query), IgnoreCase(Lower(query)));
  }

  /** The text of the source's case-sensitive unit test, one line per
      operand. */
  const DuctText: string :=
    "Rust:" + "\n" + ("safe, fast, productive." + "\n" + ("Pick three." + "\n" + "Duct tape."))
  /** The text of the source's case-insensitive unit test. */
  const TrustText: string :=
    "Rust:" + "\n" + ("safe, fast, productive." + "\n" + ("Pick three." + "\n" + "Trust me."))

  /** A query with a character the line lacks is not contained in it. */
  lemma MissingCharNotContained(s: string, q: string, c: char)
    requires c in q && c !in s
    ensures !Contains(s, q)
  {
  }

  /** An occurrence at a known index makes the query contained. */
  lemma OccurrenceContained(s: string, q: string, i: int)
    requires OccursAt(s, q, i)
    ensures Contains(s, q)
  {
  }

  /** Of four lines only the second passes. */
  lemma FilterOnlySecond(ls: seq<string>, p: Policy)
    requires |ls| == 4
    requires !Accepts(p, ls[0]) && Accepts(p, ls[1]) && !Accepts(p, ls[2]) && !Accepts(p, ls[3])
    ensures Filter(ls, p) == [ls[1]]
  {
    var last := ls[3..];
    assert Filter(last, p) == [] by {
      assert last[0] == ls[3] && last[1..] == [];
    }
    assert Filter(ls[2..], p) == [] by {
      assert ls[2..][0] == ls[2] && ls[2..][1..] == last;
    }
    assert Filter(ls[1..], p) == [ls[1]] by {
      assert ls[1..][0] == ls[1] && ls[1..][1..] == ls[2..];
    }
  }

  /** Of four lines only the first and the last pass. */
  lemma FilterFirstAndLast(ls: seq<string>, p: Policy)
    requires |ls| == 4
    requires Accepts(p, ls[0]) && !Accepts(p, ls[1]) && !Accepts(p, ls[2]) && Accepts(p, ls[3])
    ensures Filter(ls, p) == [ls[0], ls[3]]
  {
    var last := ls[3..];
    assert Filter(last, p) == [ls[3]] by {
      assert last[0] == ls[3] && last[1..] == [];
    }
    assert Filter(ls[2..], p) == Filter(last, p) by {
      assert ls[2..][0] == ls[2] && ls[2..][1..] == last;
    }
    assert Filter(ls[1..], p) == Filter(last, p) by {
      assert ls[1..][0] == ls[1] && ls[1..][1..] == ls[2..];
    }
  }

  /** What the test of the case-sensitive unit test decides for each of its
      lines: only the second contains "duct". */
  lemma DuctVerdicts()
    ensures !Contains("Rust:", "duct") && Contains("safe, fast, productive.", "duct")
    ensures !Contains("Pick three.", "duct") && !Contains("Duct tape.", "duct")
  {
    MissingCharNotContained("Rust:", "duct", 'd');
    OccurrenceContained("safe, fast, productive.", "duct", 15);
    MissingCharNotContained("Pick three.", "duct", 'd');
    MissingCharNotContained("Duct tape.", "duct", 'd');
  }

  /** Unit test `case_sensitive`: "duct" selects only the "productive" line;
      "Duct tape." differs in case and is left out. */
  lemma CaseSensitiveExample()
    ensures Search("duct", DuctText) == ["safe, fast, productive."]
  {
    DuctVerdicts();
    FourLines("Rust:", "safe, fast, productive.", "Pick three.", "Duct tape.");
    FilterOnlySecond(["Rust:", "safe, fast, productive.", "Pick three.", "Duct tape."], Exact("duct"));
  }

  /** A line whose lowered form holds the lowered query passes the
      case-insensitive test. */
  lemma AcceptedIgnoringCase(line: string, lowered: string, lq: string, i: int)
    requires Lower(line) == lowered && OccursAt(lowered, lq, i)
    ensures Accepts(IgnoreCase(lq), line)
  {
  }

  /** A line that lacks a letter of the lowered query in both cases fails
      the case-insensitive test. */
  lemma RejectedIgnoringCase(line: string, lq: string, x: char)
    requires 'a' <= x <= 'z' && x in lq && x !in line && Upper(x) !in line
    ensures !Accepts(IgnoreCase(lq), line)
  {
  }

  /** A line `b1 + b2` fails the case-insensitive test when `b1` lacks the
      lowered query's first letter `y` and `b2` lacks its letter `z`, in both
      cases. */
  lemma RejectedIgnoringCaseSplit(b: string, b1: string, b2: string, lq: string, y: char, z: char)
    requires b == b1 + b2
    requires 'a' <= y <= 'z' && lq != [] && lq[0] == y && y !in b1 && Upper(y) !in b1
    requires 'a' <= z <= 'z' && z in lq && z !in b2 && Upper(z) !in b2
    ensures !Accepts(IgnoreCase(lq), b)
  {
  }

  /** The first line of the case-insensitive unit test contains "rust"
      once lowered. */
  lemma TrustAcceptsFirst()
    ensures Accepts(IgnoreCase("rust"), "Rust:")
  {
    AcceptedIgnoringCase("Rust:", "rust:", "rust", 0);
  }

  /** The last line of the case-insensitive unit test contains "rust"
      once lowered. */
  lemma TrustAcceptsLast()
    ensures Accepts(IgnoreCase("rust"), "Trust me.")
  {
    AcceptedIgnoringCase("Trust me.", "trust me.", "rust", 1);
  }

  /** The second line of the case-insensitive unit test does not contain
      "rust" once lowered: its one 'r' is followed by "oductive.", which has
      no 's'. */
  lemma TrustRejectsSecond()
    ensures !Accepts(IgnoreCase("rust"), "safe, fast, productive.")
  {
    RejectedIgnoringCaseSplit("safe, fast, productive.", "safe, fast, p", "roductive.", "rust", 'r', 's');
  }

  /** The third line of the case-insensitive unit test has no 'u' in
      either case. */
  lemma TrustRejectsThird()
    ensures !Accepts(IgnoreCase("rust"), "Pick three.")
  {
    RejectedIgnoringCase("Pick three.", "rust", 'u');
  }

  /** Unit test `case_insensitive`: "rUsT" selects "Rust:" and "Trust me.",
      in that order. */
  lemma CaseInsensitiveExample()
    ensures SearchCaseInsensitive("rUsT", TrustText) == ["Rust:", "Trust me."]
  {
    assert Lower("rUsT") == "rust" by {
      assert forall k :: 0 <= k < 4 ==> Lower("rUsT")[k] == LowerChar("rUsT"[k]);
    }
    TrustAcceptsFirst();
    TrustAcceptsLast();
    TrustRejectsSecond();
    TrustRejectsThird();
    FourLines("Rust:", "safe, fast, productive.", "Pick three.", "Trust me.");
    FilterFirstAndLast(["Rust:", "safe, fast, productive.", "Pick three.", "Trust me."], IgnoreCase("rust"));
  }

  /** The lines of a four-line text without a final newline. */
  lemma FourLines(a: string, b: string, c: string, d: string)
    requires PlainLine(a) && PlainLine(b) && PlainLine(c) && d != [] && '\n' !in d
    ensures Lines(a + "\n" + (b + "\n" + (c + "\n" + d))) == [a, b, c, d]
  {
    ThreeLines(b, c, d);
    LinesAfterLine(a, b + "\n" + (c + "\n" + d));
    assert [a] + [b, c, d] == [a, b, c, d];
  }

  lemma ThreeLines(b: string, c: string, d: string)
    requires PlainLine(b) && PlainLine(c) && d != [] && '\n' !in d
    ensures Lines(b + "\n" + (c + "\n" + d)) == [b, c, d]
  {
    TwoLines(c, d);
    LinesAfterLine(b, c + "\n" + d);
  }

  lemma TwoLines(c: string, d: string)
    requires PlainLine(c) && d != [] && '\n' !in d
    ensures Lines(c + "\n" + d) == [c, d]
  {
    assert LineEnd(d) == |d|;
    LinesAfterLine(c, d);
  }
}
