/** The highlighter of `run`: every occurrence of the query in a printed
    line is wrapped in an ANSI colour sequence by `str::replace`. */
module Highlighter {
  import opened Text

  /** The escape character that opens every ANSI control sequence. */
  const ESC: char := '\U{1B}'
  /** Select the 24-bit foreground colour (192, 32, 56). */
  const START: string := [ESC] + "[38;2;192;32;56m"
  /** Reset every graphic attribute. */
  const RESET: string := [ESC] + "[0m"

  /** The replacement text: the query between the colour and reset
      sequences. */
  function Marked(q: string): (m: string)
    ensures |m| == |START| + |q| + |RESET| && m[0] == ESC
    ensures m[|START|..|START| + |q|] == q
  {
    START + q + RESET
  }

  /** `s.replace(from, to)`: scanning left to right, each occurrence of
      `from` is written as `to` and the scan resumes after it, so occurrences
      do not overlap. The empty pattern occurs at every character boundary,
      the end of `s` included. */
  function Replace(s: string, from: string, to: string): (r: string)
    ensures |to| >= |from| ==> |r| >= |s|
    decreases |s|
  {
    if from == [] then
      if s == [] then to else to + [s[0]] + Replace(s[1..], from, to)
    else if IsPrefix(from, s) then to + Replace(s[|from|..], from, to)
    else if s == [] then []
    else [s[0]] + Replace(s[1..], from, to)
  }

  /** The printed form of a selected line: every occurrence of the query
      (the query as the user typed it) wrapped in the colour markers. */
  function Highlight(line: string, q: string): (r: string)
    ensures |r| >= |line|
  {
    Replace(line, q, Marked(q))
  }

  /** The leftmost occurrence of a non-empty query is wrapped in the
      markers, and highlighting goes on after it. */
  lemma HighlightLeftmost(a: string, q: string, b: string)
    requires q != []
    requires forall j :: 0 <= j < |a| ==> !OccursAt(a + q + b, q, j)
    ensures Highlight(a + q + b, q) == a + Marked(q) + Highlight(b, q)
  {
    ReplaceLeftmost(a, q, b, Marked(q));
  }

  /** Removes the markers again: each `Marked(q)` becomes `q`, every other
      character is kept. */
  function Unmark(s: string, q: string): (r: string)
    ensures |r| <= |s|
    decreases |s|
  {
    if s == [] then []
    else if IsPrefix(Marked(q), s) then q + Unmark(s[|Marked(q)|..], q)
    else [s[0]] + Unmark(s[1..], q)
  }

  /** A non-empty pattern that does not occur leaves the text as it is. */
  lemma {:induction false} ReplaceNoMatch(s: string, from: string, to: string)
    requires from != [] && !Contains(s, from)
    ensures Replace(s, from, to) == s
    decreases |s|
  {
    ContainsScan(s, from);
    if s != [] {
      ReplaceNoMatch(s[1..], from, to);
    }
  }

  /** `replace` rewrites the leftmost occurrence of a non-empty pattern:
      when no occurrence starts inside `a`, the text `a` before the
      occurrence is kept, the occurrence becomes `to`, and the scan goes on
      with `b`. With `ReplaceNoMatch` this fixes the result for every text:
      each non-overlapping occurrence, found left to right, is replaced and
      nothing else changes. */
  lemma {:induction false} ReplaceLeftmost(a: string, from: string, b: string, to: string)
    requires from != []
    requires forall j :: 0 <= j < |a| ==> !OccursAt(a + from + b, from, j)
    ensures Replace(a + from + b, from, to) == a + to + Replace(b, from, to)
    decreases |a|
  {
    if a == [] {
      ReplaceAtFront(from, b, to);
    } else {
      NoOccurrenceInTail(a, from, b);
      ReplaceLeftmost(a[1..], from, b, to);
      ReplaceSkipFirst(a, from, b, to);
    }
  }

  /** A pattern at the front is replaced and the scan goes on after it. */
  lemma ReplaceAtFront(from: string, b: string, to: string)
    requires from != []
    ensures Replace([] + from + b, from, to) == [] + to + Replace(b, from, to)
  {
    var s := [] + from + b;
    assert s[..|from|] == from;
    assert s[|from|..] == b;
  }

  /** Without an occurrence starting in `a`, none starts in `a[1..]`. */
  lemma NoOccurrenceInTail(a: string, from: string, b: string)
    requires a != []
    requires forall j :: 0 <= j < |a| ==> !OccursAt(a + from + b, from, j)
    ensures !OccursAt(a + from + b, from, 0)
    ensures forall j :: 0 <= j < |a| - 1 ==> !OccursAt(a[1..] + from + b, from, j)
  {
    assert (a + from + b)[1..] == a[1..] + from + b;
    forall j | 0 <= j < |a| - 1
      ensures !OccursAt(a[1..] + from + b, from, j)
    {
      assert !OccursAt(a + from + b, from, j + 1);
    }
  }

  /** The first character of `a`, where no occurrence starts, is kept. */
  lemma ReplaceSkipFirst(a: string, from: string, b: string, to: string)
    requires a != [] && from != [] && !OccursAt(a + from + b, from, 0)
    requires Replace(a[1..] + from + b, from, to) == a[1..] + to + Replace(b, from, to)
    ensures Replace(a + from + b, from, to) == a + to + Replace(b, from, to)
  {
    SplitFirst(a, from, b);
    ReplaceSkipChar(a + from + b, from, to);
    SplitFirst(a, to, Replace(b, from, to));
  }

  /** A character that does not start the pattern is kept and the scan
      moves one character on. */
  lemma ReplaceSkipChar(s: string, from: string, to: string)
    requires from != [] && s != [] && !OccursAt(s, from, 0)
    ensures Replace(s, from, to) == [s[0]] + Replace(s[1..], from, to)
  {
    assert !IsPrefix(from, s);
  }

  /** The first character of `a + m + b` and what follows it. */
  lemma SplitFirst(a: string, m: string, b: string)
    requires a != []
    ensures (a + m + b)[0] == a[0]
    ensures (a + m + b)[1..] == a[1..] + m + b
    ensures [a[0]] + (a[1..] + m + b) == a + m + b
  {
    assert a == [a[0]] + a[1..];
  }

  /** Each occurrence replaced by a longer text makes the result longer. */
  lemma {:induction false} ReplaceGrows(s: string, from: string, to: string)
    requires from != [] && |to| > |from| && Contains(s, from)
    ensures |Replace(s, from, to)| > |s|
    decreases |s|
  {
    ContainsScan(s, from);
    if !IsPrefix(from, s) {
      ReplaceGrows(s[1..], from, to);
    }
  }

  /** Replacing a pattern by itself changes nothing, the empty pattern
      included. */
  lemma {:induction false} ReplaceSelf(s: string, p: string)
    ensures Replace(s, p, p) == s
    decreases |s|
  {
    if p == [] {
      if s != [] {
        ReplaceSelf(s[1..], p);
      }
    } else if IsPrefix(p, s) {
      ReplaceSelf(s[|p|..], p);
      assert s == s[..|p|] + s[|p|..];
    } else if s != [] {
      ReplaceSelf(s[1..], p);
    }
  }

  /** A line comes out of the highlighter unchanged exactly when the
      (non-empty) query does not occur in it. */
  lemma HighlightUnchangedIff(line: string, q: string)
    requires q != []
    ensures Highlight(line, q) == line <==> !Contains(line, q)
  {
    if Contains(line, q) {
      ReplaceGrows(line, q, Marked(q));
    } else {
      ReplaceNoMatch(line, q, Marked(q));
    }
  }

  /** A marker in front of a text unmarks to the query. */
  lemma UnmarkMarked(q: string, rest: string)
    ensures Unmark(Marked(q) + rest, q) == q + Unmark(rest, q)
  {
  }

  /** A character other than ESC cannot open a marker and is kept. */
  lemma UnmarkPlainChar(c: char, rest: string, q: string)
    requires c != ESC
    ensures Unmark([c] + rest, q) == [c] + Unmark(rest, q)
  {
  }

  /** Removing the markers from a highlighted line gives back the line,
      provided the line holds no escape character of its own. */
  lemma {:induction false} UnmarkHighlight(line: string, q: string)
    requires ESC !in line
    ensures Unmark(Highlight(line, q), q) == line
    decreases |line|
  {
    if q == [] {
      UnmarkHighlightEmpty(line);
    } else if IsPrefix(q, line) {
      UnmarkHighlight(line[|q|..], q);
      UnmarkMarked(q, Replace(line[|q|..], q, Marked(q)));
      assert line == q + line[|q|..];
    } else if line != [] {
      UnmarkHighlight(line[1..], q);
      UnmarkPlainChar(line[0], Replace(line[1..], q, Marked(q)), q);
    }
  }

  /** The round trip for the empty query, whose marker is the colour
      sequence directly followed by the reset sequence. */
  lemma {:induction false} UnmarkHighlightEmpty(line: string)
    requires ESC !in line
    ensures Unmark(Highlight(line, ""), "") == line
    decreases |line|
  {
    var m := Marked("");
    if line == [] {
      UnmarkMarked("", []);
      assert m + [] == m;
    } else {
      UnmarkHighlightEmpty(line[1..]);
      var rest := Replace(line[1..], "", m);
      assert Highlight(line, "") == m + ([line[0]] + rest);
      UnmarkMarked("", [line[0]] + rest);
      UnmarkPlainChar(line[0], rest, "");
    }
  }

  /** With the empty query a marker goes before each character and one more
      at the end, so every character boundary carries a marker. */
  lemma HighlightEmptySteps(c: char, rest: string)
    ensures Highlight([], "") == Marked("")
    ensures Highlight([c] + rest, "") == Marked("") + [c] + Highlight(rest, "")
  {
    assert ([c] + rest)[1..] == rest;
  }

  /** With the empty query a marker stands at every character boundary: one
      more marker than the line has characters. */
  lemma {:induction false} HighlightEmptyQuery(line: string)
    ensures |Highlight(line, "")| == |line| + (|line| + 1) * |START + RESET|
    ensures Highlight(line, "") != line
    decreases |line|
  {
    if line != [] {
      HighlightEmptyQuery(line[1..]);
    }
  }
}
