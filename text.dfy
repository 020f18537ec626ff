/** Text primitives the search is built on: substring containment
    (`str::contains`), ASCII lower-casing (`str::to_lowercase` restricted to
    ASCII) and the splitting of a text into lines done by `str::lines`. */
module Text {

  /** `p` is a prefix of `s`. */
  predicate IsPrefix(p: string, s: string) {
    |p| <= |s| && s[..|p|] == p
  }

  /** `q` occurs in `s` as the contiguous run starting at index `i`. */
  predicate OccursAt(s: string, q: string, i: int) {
    0 <= i && i + |q| <= |s| && s[i..i + |q|] == q
  }

  /** `s.contains(q)`: `q` occurs in `s` as a contiguous run. The empty
      pattern is contained in every string. */
  predicate Contains(s: string, q: string) {
    exists i | 0 <= i <= |s| - |q| :: OccursAt(s, q, i)
  }

  /** Containment as the left-to-right scan that `contains` and `replace`
      perform: the query is a prefix here, or it is contained further on. */
  lemma ContainsScan(s: string, q: string)
    ensures Contains(s, q) <==> IsPrefix(q, s) || (s != [] && Contains(s[1..], q))
  {
    if IsPrefix(q, s) {
      assert OccursAt(s, q, 0);
    }
    if s != [] && Contains(s[1..], q) {
      var i :| 0 <= i <= |s| - 1 - |q| && OccursAt(s[1..], q, i);
      assert s[i + 1..i + 1 + |q|] == s[1..][i..i + |q|];
      assert OccursAt(s, q, i + 1);
    }
    if Contains(s, q) && !IsPrefix(q, s) {
      var i :| 0 <= i <= |s| - |q| && OccursAt(s, q, i);
      assert i != 0;
      assert s[1..][i - 1..i - 1 + |q|] == s[i..i + |q|];
      assert OccursAt(s[1..], q, i - 1);
    }
  }

  /** ASCII lower-casing of one character: 'A'..'Z' map to 'a'..'z', every
      other character is left as it is. */
  function LowerChar(c: char): (d: char)
    ensures 'A' <= c <= 'Z' ==> 'a' <= d <= 'z' && d as int - c as int == 32
    ensures !('A' <= c <= 'Z') ==> d == c
  {
    if 'A' <= c <= 'Z' then (c as int - 'A' as int + 'a' as int) as char else c
  }

  /** The upper-case form of a lower-case ASCII letter. */
  function Upper(c: char): (u: char)
    requires 'a' <= c <= 'z'
    ensures 'A' <= u <= 'Z' && LowerChar(u) == c
  {
    (c as int - 32) as char
  }

  /** `s.to_lowercase()` on the ASCII range, character by character. */
  function Lower(s: string): (r: string)
    ensures |r| == |s|
    ensures forall i :: 0 <= i < |s| ==> r[i] == LowerChar(s[i])
  {
    seq(|s|, i requires 0 <= i < |s| => LowerChar(s[i]))
  }

  /** Lowering commutes with taking a slice. */
  lemma LowerSlice(s: string, i: int, j: int)
    requires 0 <= i <= j <= |s|
    ensures Lower(s)[i..j] == Lower(s[i..j])
  {
  }

  /** A line that contains the query still contains it once both are
      lowered: ignoring case can only select more. */
  lemma ContainsLower(s: string, q: string)
    requires Contains(s, q)
    ensures Contains(Lower(s), Lower(q))
  {
    var i :| 0 <= i <= |s| - |q| && OccursAt(s, q, i);
    LowerSlice(s, i, i + |q|);
    assert OccursAt(Lower(s), Lower(q), i);
  }

  /** Index of the first '\n' in `s`, or `|s|` when there is none. */
  function LineEnd(s: string): (n: nat)
    ensures n <= |s|
    ensures n < |s| ==> s[n] == '\n'
    ensures forall j :: 0 <= j < n ==> s[j] != '\n'
    decreases |s|
  {
    if s == [] || s[0] == '\n' then 0 else 1 + LineEnd(s[1..])
  }

  /** Drops the one '\r' that stood before a line's terminating '\n'. */
  function StripCr(piece: string): (r: string) {
    if |piece| > 0 && piece[|piece| - 1] == '\r' then piece[..|piece| - 1] else piece
  }

  /** `s.lines()`: the pieces of `s` between '\n' separators. A piece ended by
      '\n' loses that '\n' and one '\r' before it; a final '\n' does not start
      an empty last line; the empty text has no lines. */
  function Lines(s: string): (ls: seq<string>)
    ensures |ls| <= |s|
    ensures forall k :: 0 <= k < |ls| ==> '\n' !in ls[k]
    decreases |s|
  {
    if s == [] then []
    else
      var n := LineEnd(s);
      if n == |s| then [s]
      else [StripCr(s[..n])] + Lines(s[n + 1..])
  }

  /** Every character of every line is a character of the text. */
  lemma {:induction false} LinesChars(s: string)
    ensures forall k, c :: 0 <= k < |Lines(s)| && c in Lines(s)[k] ==> c in s
    decreases |s|
  {
    if s != [] {
      var n := LineEnd(s);
      if n < |s| {
        LinesChars(s[n + 1..]);
        assert s == s[..n] + [s[n]] + s[n + 1..];
      }
    }
  }

  /** A line as `lines` can give it back: no '\n' in it and no '\r' at its end. */
  predicate PlainLine(l: string) {
    '\n' !in l && (l == [] || l[|l| - 1] != '\r')
  }

  /** The text made of `ls`, each line followed by a '\n'. */
  function Terminated(ls: seq<string>): (t: string) {
    if ls == [] then [] else ls[0] + "\n" + Terminated(ls[1..])
  }

  /** The line end of `a + "\n" + b` is the end of `a` when `a` has no '\n'. */
  lemma LineEndAfter(a: string, b: string)
    requires '\n' !in a
    ensures LineEnd(a + "\n" + b) == |a|
  {
    var s := a + "\n" + b;
    var n := LineEnd(s);
    assert s[|a|] == '\n';
  }

  /** A plain line followed by '\n' is the first line of the text. */
  lemma LinesAfterLine(a: string, rest: string)
    requires PlainLine(a)
    ensures Lines(a + "\n" + rest) == [a] + Lines(rest)
  {
    var s := a + "\n" + rest;
    LineEndAfter(a, rest);
    assert s[..|a|] == a;
    assert s[|a| + 1..] == rest;
  }

  /** A line ended by "\r\n" loses both: the '\r' before the '\n' is not
      part of the line. */
  lemma LinesAfterCrLine(a: string, rest: string)
    requires '\n' !in a
    ensures Lines(a + "\r\n" + rest) == [a] + Lines(rest)
  {
    var s := a + "\r\n" + rest;
    assert s == (a + "\r") + "\n" + rest;
    LineEndAfter(a + "\r", rest);
    assert s[..|a| + 1] == a + "\r";
    assert s[|a| + 2..] == rest;
  }

  /** A last line with no '\n' after it keeps a final '\r'. */
  lemma LinesKeepFinalCr(a: string)
    requires '\n' !in a
    ensures Lines(a + "\r") == [a + "\r"]
  {
    var s := a + "\r";
    assert '\n' !in s;
    assert LineEnd(s) == |s|;
  }

  /** Splitting undoes joining with terminators: `lines` is the inverse of
      writing each line followed by '\n'. */
  lemma {:induction false} LinesOfTerminated(ls: seq<string>)
    requires forall k :: 0 <= k < |ls| ==> PlainLine(ls[k])
    ensures Lines(Terminated(ls)) == ls
  {
    if ls != [] {
      LinesAfterLine(ls[0], Terminated(ls[1..]));
      LinesOfTerminated(ls[1..]);
    }
  }

  /** A final '\n' does not produce an empty last line: a text that ends in
      an ordinary character splits into the same lines with or without one. */
  lemma {:induction false} LinesIgnoreFinalNewline(s: string)
    requires s != [] && s[|s| - 1] != '\n' && s[|s| - 1] != '\r'
    ensures Lines(s + "\n") == Lines(s)
    decreases |s|
  {
    var t := s + "\n";
    var n := LineEnd(s);
    if n == |s| {
      LineEndAfter(s, "");
      assert t[..n] == s;
      assert t[n + 1..] == [];
    } else {
      LineEndAfter(s[..n], s[n + 1..] + "\n");
      assert t == s[..n] + "\n" + (s[n + 1..] + "\n");
      assert t[..n] == s[..n];
      assert t[n + 1..] == s[n + 1..] + "\n";
      LinesIgnoreFinalNewline(s[n + 1..]);
    }
  }
}
