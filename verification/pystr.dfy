/** Python `str` operations used by the scripts, with Python's semantics on
    sequences of Unicode scalar values. */
module PyStr {

  /** `c.isspace()`: the characters that `str.strip()` removes. */
  predicate IsSpace(c: char) {
    || ('\t' <= c <= '\r')
    || ('\U{1C}' <= c <= '\U{1F}')
    || c == ' ' || c == '\U{85}' || c == '\U{A0}' || c == '\U{1680}'
    || ('\U{2000}' <= c <= '\U{200A}')
    || c == '\U{2028}' || c == '\U{2029}' || c == '\U{202F}' || c == '\U{205F}'
    || c == '\U{3000}'
  }

  predicate AllSpace(s: string) {
    forall i :: 0 <= i < |s| ==> IsSpace(s[i])
  }

  /** Neither end of `s` is whitespace. */
  predicate Trimmed(s: string) {
    |s| == 0 || (!IsSpace(s[0]) && !IsSpace(s[|s| - 1]))
  }

  function StripLeft(s: string): (r: string)
    ensures |r| <= |s| && r == s[|s| - |r|..]
    ensures |r| == 0 || !IsSpace(r[0])
    ensures AllSpace(s[..|s| - |r|])
  {
    if |s| > 0 && IsSpace(s[0]) then
      var r := StripLeft(s[1..]);
      StripLeftStep(s, r);
      r
    else s
  }

  lemma StripLeftStep(s: string, r: string)
    requires |s| > 0 && IsSpace(s[0]) && |r| <= |s| - 1
    requires r == s[1..][|s| - 1 - |r|..] && AllSpace(s[1..][..|s| - 1 - |r|])
    ensures r == s[|s| - |r|..] && AllSpace(s[..|s| - |r|])
  {
    assert s[..|s| - |r|] == [s[0]] + s[1..][..|s| - 1 - |r|];
  }

  function StripRight(s: string): (r: string)
    ensures |r| <= |s| && r == s[..|r|]
    ensures |r| == 0 || !IsSpace(r[|r| - 1])
    ensures AllSpace(s[|r|..])
  {
    if |s| > 0 && IsSpace(s[|s| - 1]) then
      var r := StripRight(s[..|s| - 1]);
      StripRightStep(s, r);
      r
    else s
  }

  lemma StripRightStep(s: string, r: string)
    requires |s| > 0 && IsSpace(s[|s| - 1]) && |r| <= |s| - 1
    requires r == s[..|s| - 1][..|r|] && AllSpace(s[..|s| - 1][|r|..])
    ensures r == s[..|r|] && AllSpace(s[|r|..])
  {
    assert s[|r|..] == s[..|s| - 1][|r|..] + [s[|s| - 1]];
  }

  /** `s.strip()`: the infix of `s` left after removing whitespace from both
      ends. */
  function Strip(s: string): (r: string)
    ensures Trimmed(r)
    ensures StrippedAt(s, r, |s| - |StripLeft(s)|)
  {
    var r := StripRight(StripLeft(s));
    StripSpec(s, StripLeft(s), r);
    r
  }

  /** Whitespace dropped from the left of `s` leaves `l`; whitespace dropped
      from the right of `l` leaves `r`. */
  lemma StripSpec(s: string, l: string, r: string)
    requires |l| <= |s| && l == s[|s| - |l|..] && (|l| == 0 || !IsSpace(l[0])) && AllSpace(s[..|s| - |l|])
    requires |r| <= |l| && r == l[..|r|] && (|r| == 0 || !IsSpace(r[|r| - 1])) && AllSpace(l[|r|..])
    ensures Trimmed(r)
    ensures StrippedAt(s, r, |s| - |l|)
  {
    var lo := |s| - |l|;
    assert r == s[lo..lo + |r|];
    assert AllSpace(s[lo + |r|..]) by {
      assert s[lo + |r|..] == l[|r|..];
    }
    assert |r| > 0 ==> r[0] == l[0];
  }

  /** Where the result of `strip()` starts in its argument. */
  function StripStart(s: string): (lo: nat)
    ensures StrippedAt(s, Strip(s), lo)
  {
    |s| - |StripLeft(s)|
  }

  /** A string is its strip with whitespace on either side. */
  lemma StripParts(s: string) returns (a: string, m: string, b: string)
    ensures s == a + m + b && AllSpace(a) && AllSpace(b) && m == Strip(s)
  {
    var lo := StripStart(s);
    m := Strip(s);
    a := s[..lo];
    b := s[lo + |m|..];
    Split3(s, lo, |m|);
  }

  lemma Split3(s: string, lo: nat, n: nat)
    requires lo + n <= |s|
    ensures s == s[..lo] + s[lo..lo + n] + s[lo + n..]
  {
  }

  /** `r` is the infix of `s` starting at `lo`, and only whitespace lies
      around it. */
  predicate StrippedAt(s: string, r: string, lo: nat) {
    && lo + |r| <= |s|
    && r == s[lo..lo + |r|]
    && AllSpace(s[..lo])
    && AllSpace(s[lo + |r|..])
  }

  lemma {:induction false} StripLeftOfSpacePrefix(a: string, x: string)
    requires AllSpace(a)
    requires |x| == 0 || !IsSpace(x[0])
    ensures StripLeft(a + x) == x
    decreases |a|
  {
    if |a| == 0 {
      assert a + x == x;
    } else {
      assert (a + x)[1..] == a[1..] + x;
      StripLeftOfSpacePrefix(a[1..], x);
    }
  }

  lemma {:induction false} StripRightOfSpaceSuffix(x: string, b: string)
    requires AllSpace(b)
    requires |x| == 0 || !IsSpace(x[|x| - 1])
    ensures StripRight(x + b) == x
    decreases |b|
  {
    if |b| == 0 {
      assert x + b == x;
    } else {
      assert (x + b)[..|x + b| - 1] == x + b[..|b| - 1];
      StripRightOfSpaceSuffix(x, b[..|b| - 1]);
    }
  }

  /** `strip()` is determined by its characterisation: whatever whitespace
      surrounds a trimmed core, stripping returns exactly that core. */
  lemma StripSurrounded(a: string, m: string, b: string)
    requires AllSpace(a) && AllSpace(b) && Trimmed(m)
    ensures Strip(a + m + b) == m
  {
    if |m| == 0 {
      assert a + m + b == a + b;
      assert AllSpace(a + b);
    } else {
      assert a + m + b == a + (m + b);
      StripLeftOfSpacePrefix(a, m + b);
      StripRightOfSpaceSuffix(m, b);
    }
  }

  /** A trimmed string is its own strip. */
  lemma StripTrimmed(m: string)
    requires Trimmed(m)
    ensures Strip(m) == m
  {
    StripSurrounded([], m, []);
    assert [] + m + [] == m;
  }

  /** `s.startswith(c)` for a one-character prefix. */
  predicate StartsWith(s: string, c: char) {
    |s| > 0 && s[0] == c
  }

  /** `s.find(c)`: the first index of `c`, or -1. */
  function Find(s: string, c: char): (i: int)
    ensures -1 <= i < |s|
    ensures i == -1 <==> c !in s
    ensures i >= 0 ==> s[i] == c && c !in s[..i]
  {
    if |s| == 0 then -1
    else if s[0] == c then 0
    else
      var j := Find(s[1..], c);
      if j == -1 then -1
      else
        assert s[..j + 1] == [s[0]] + s[1..][..j];
        j + 1
  }

  /** `s.rfind(c)`: the last index of `c`, or -1. */
  function RFind(s: string, c: char): (i: int)
    ensures -1 <= i < |s|
    ensures i == -1 <==> c !in s
    ensures i >= 0 ==> s[i] == c && c !in s[i + 1..]
  {
    if |s| == 0 then -1
    else if s[|s| - 1] == c then |s| - 1
    else
      var j := RFind(s[..|s| - 1], c);
      if j == -1 then
        assert s == s[..|s| - 1] + [s[|s| - 1]];
        -1
      else
        assert s[j + 1..] == s[..|s| - 1][j + 1..] + [s[|s| - 1]];
        j
  }

  /** How Python normalises one bound of `s[a:b]` for a sequence of length
      `n`: a negative bound counts from the end, and the result is clamped to
      `0..n`. */
  function SliceBound(i: int, n: nat): (k: nat)
    ensures k <= n
    ensures 0 <= i <= n ==> k == i
    ensures -(n as int) <= i < 0 ==> k == (n as int) + i
    ensures i < -(n as int) ==> k == 0
    ensures n < i ==> k == n
  {
    if i < 0 then (if i + n < 0 then 0 else i + n)
    else if i > n then n
    else i
  }

  /** `s[a:b]`: empty whenever the normalised start is not before the
      normalised end. */
  function Slice(s: string, a: int, b: int): (r: string)
    ensures SliceBound(a, |s|) < SliceBound(b, |s|) ==> r == s[SliceBound(a, |s|)..SliceBound(b, |s|)]
    ensures SliceBound(b, |s|) <= SliceBound(a, |s|) ==> r == []
  {
    var lo := SliceBound(a, |s|);
    var hi := SliceBound(b, |s|);
    if lo < hi then s[lo..hi] else []
  }

  /** `s.split(c, 1)` when `c` occurs in `s`: the parts before and after the
      first occurrence. */
  function SplitOnce(s: string, c: char): (parts: (string, string))
    requires c in s
    ensures s == parts.0 + [c] + parts.1
    ensures c !in parts.0
  {
    var i := Find(s, c);
    assert s == s[..i] + [c] + s[i + 1..];
    (s[..i], s[i + 1..])
  }

  /** Splitting at a separator that the first part does not contain gives
      back the two parts. */
  lemma SplitOnceOf(a: string, c: char, b: string)
    requires c !in a
    ensures c in a + [c] + b
    ensures SplitOnce(a + [c] + b, c) == (a, b)
  {
    var s := a + [c] + b;
    assert s[|a|] == c;
    assert s[..|a|] == a;
    assert s[|a| + 1..] == b;
    assert Find(s, c) == |a|;
  }

  /** `strip()` only removes characters: what it returns is a piece of its
      argument. */
  lemma StripInfix(s: string)
    ensures forall c :: c in Strip(s) ==> c in s
  {
    InfixChars(s, Strip(s), StripStart(s));
  }

  lemma InfixChars(s: string, r: string, lo: nat)
    requires lo + |r| <= |s| && r == s[lo..lo + |r|]
    ensures forall c :: c in r ==> c in s
  {
    forall c | c in r
      ensures c in s
    {
      var i :| 0 <= i < |r| && r[i] == c;
      assert s[lo + i] == c;
    }
  }

  /** Stripping a line of a file drops its newline, which can only be its
      last character. */
  lemma StripDropsNewline(line: string)
    requires FileLine(line)
    ensures '\n' !in Strip(line)
  {
    TrimmedInfixOfLine(line, Strip(line), StripStart(line));
  }

  lemma TrimmedInfixOfLine(line: string, r: string, lo: nat)
    requires FileLine(line) && StrippedAt(line, r, lo) && Trimmed(r)
    ensures '\n' !in r
  {
    forall j | 0 <= j < |r|
      ensures r[j] != '\n'
    {
      if lo + j < |line| - 1 {
        assert line[..|line| - 1][lo + j] == r[j];
      } else {
        assert !IsSpace(r[|r| - 1]);
      }
    }
  }

  /** `old` occurs in `s` at index `i`. */
  predicate OccursAt(s: string, pat: string, i: nat) {
    i + |pat| <= |s| && s[i..i + |pat|] == pat
  }

  /** `s.replace(pat, rep)`: every non-overlapping occurrence of `pat`, scanned
      from the left, is replaced. */
  function ReplaceAll(s: string, pat: string, rep: string): (r: string)
    requires |pat| > 0
    decreases |s|
  {
    if |s| < |pat| then s
    else if s[..|pat|] == pat then rep + ReplaceAll(s[|pat|..], pat, rep)
    else [s[0]] + ReplaceAll(s[1..], pat, rep)
  }

  /** A string in which `pat` does not occur is left unchanged by `replace`. */
  lemma {:induction false} ReplaceAllAbsent(s: string, pat: string, rep: string)
    requires |pat| > 0
    requires forall i :: 0 <= i <= |s| - |pat| ==> !OccursAt(s, pat, i)
    ensures ReplaceAll(s, pat, rep) == s
    decreases |s|
  {
    if |s| >= |pat| {
      assert !OccursAt(s, pat, 0);
      forall i | 0 <= i <= |s[1..]| - |pat|
        ensures !OccursAt(s[1..], pat, i)
      {
        assert !OccursAt(s, pat, i + 1);
        assert s[1..][i..i + |pat|] == s[i + 1..i + 1 + |pat|];
      }
      ReplaceAllAbsent(s[1..], pat, rep);
      assert s == [s[0]] + s[1..];
    }
  }

  /** When the first occurrence of `pat` in `s` is a suffix, `replace` swaps
      exactly that suffix. */
  lemma {:induction false} ReplaceAllSuffix(d: string, pat: string, rep: string)
    requires |pat| > 0
    requires forall i :: 0 <= i < |d| ==> !OccursAt(d + pat, pat, i)
    ensures ReplaceAll(d + pat, pat, rep) == d + rep
    decreases |d|
  {
    var s := d + pat;
    if |d| == 0 {
      assert s == pat;
      assert s[|pat|..] == [];
      assert s[..|pat|] == pat;
    } else {
      assert !OccursAt(s, pat, 0);
      assert s[..|pat|] != pat;
      assert s[1..] == d[1..] + pat;
      forall i | 0 <= i < |d[1..]|
        ensures !OccursAt(d[1..] + pat, pat, i)
      {
        assert !OccursAt(s, pat, i + 1);
        assert (d[1..] + pat)[i..i + |pat|] == s[i + 1..i + 1 + |pat|];
      }
      ReplaceAllSuffix(d[1..], pat, rep);
      assert [d[0]] + (d[1..] + rep) == d + rep;
    }
  }

  /** Replacing a one-character pattern by a one-character string maps each
      character on its own and keeps the length. */
  lemma {:induction false} ReplaceCharPointwise(s: string, a: char, b: char)
    ensures |ReplaceAll(s, [a], [b])| == |s|
    ensures forall i :: 0 <= i < |s| ==>
      ReplaceAll(s, [a], [b])[i] == (if s[i] == a then b else s[i])
    decreases |s|
  {
    if |s| >= 1 {
      ReplaceCharPointwise(s[1..], a, b);
      var tail := ReplaceAll(s[1..], [a], [b]);
      if s[..1] == [a] {
        assert s[0] == a;
        assert s[1..] == s[|[a]|..];
      } else {
        assert s[0] != a;
      }
      var r := ReplaceAll(s, [a], [b]);
      assert r == [if s[0] == a then b else s[0]] + tail;
      forall i | 0 <= i < |s|
        ensures r[i] == (if s[i] == a then b else s[i])
      {
        if i > 0 {
          assert r[i] == tail[i - 1];
          assert s[i] == s[1..][i - 1];
        }
      }
    }
  }

  /** `sep.join(parts)`. */
  function Join(parts: seq<string>, sep: string): string {
    if |parts| == 0 then []
    else if |parts| == 1 then parts[0]
    else parts[0] + sep + Join(parts[1..], sep)
  }

  /** Every part followed by a newline: the text of a file whose lines are
      `parts`. */
  function Terminated(parts: seq<string>): string {
    if |parts| == 0 then [] else parts[0] + "\n" + Terminated(parts[1..])
  }

  /** `'\n'.join(parts) + '\n'` on a non-empty list puts one newline after
      every part and nothing else. */
  lemma {:induction false} JoinThenNewline(parts: seq<string>)
    requires |parts| > 0
    ensures Join(parts, "\n") + "\n" == Terminated(parts)
  {
    if |parts| > 1 {
      JoinThenNewline(parts[1..]);
      assert Terminated(parts[1..][1..]) == Terminated(parts[2..]);
    } else {
      assert parts[1..] == [];
    }
  }

  /** Iterating a text file: each line keeps its terminating newline; the
      last line may lack one. */
  function FileLines(text: string): (lines: seq<string>)
    decreases |text|
  {
    if |text| == 0 then []
    else
      var i := Find(text, '\n');
      if i == -1 then [text] else [text[..i + 1]] + FileLines(text[i + 1..])
  }

  /** A line as text-file iteration yields it: non-empty, with a newline
      only at its end. */
  predicate FileLine(line: string) {
    |line| > 0 && '\n' !in line[..|line| - 1]
  }

  /** The lines of a file, put back together, are the file. */
  lemma {:induction false} FileLinesConcat(text: string)
    ensures Concat(FileLines(text)) == text
    decreases |text|
  {
    if |text| > 0 {
      var i := Find(text, '\n');
      if i == -1 {
        FileLinesLast(text);
      } else {
        FileLinesConcat(text[i + 1..]);
        FileLinesConcatStep(text, i);
      }
    }
  }

  lemma FileLinesLast(text: string)
    requires |text| > 0 && Find(text, '\n') == -1
    ensures Concat(FileLines(text)) == text
  {
    assert FileLines(text) == [text];
    ConcatCons(text, []);
    assert [text] + [] == [text];
  }

  lemma FileLinesConcatStep(text: string, i: int)
    requires 0 <= i < |text| && Find(text, '\n') == i
    requires Concat(FileLines(text[i + 1..])) == text[i + 1..]
    ensures Concat(FileLines(text)) == text
  {
    FileLinesStep(text, i);
    TakeDrop(text, i + 1);
    ConcatStep(FileLines(text), text[..i + 1], FileLines(text[i + 1..]), text[i + 1..], text);
  }

  lemma TakeDrop(s: string, n: nat)
    requires n <= |s|
    ensures s[..n] + s[n..] == s
  {
  }

  /** Cutting a file after its first newline splits off its first line. */
  lemma FileLinesStep(text: string, i: int)
    requires 0 <= i < |text| && Find(text, '\n') == i
    ensures FileLines(text) == [text[..i + 1]] + FileLines(text[i + 1..])
  {
  }

  /** Each line of a file is non-empty and holds a newline only as its last
      character. */
  lemma {:induction false} FileLinesShape(text: string)
    ensures forall k :: 0 <= k < |FileLines(text)| ==> FileLine(FileLines(text)[k])
    decreases |text|
  {
    if |text| > 0 {
      var i := Find(text, '\n');
      if i != -1 {
        FileLinesShape(text[i + 1..]);
        FirstLine(text, i);
      } else {
        assert FileLine(text) by {
          assert text == text[..|text| - 1] + [text[|text| - 1]];
        }
      }
    }
  }

  /** The first line of a file that holds a newline is a line. */
  lemma FirstLine(text: string, i: int)
    requires 0 <= i < |text| && text[i] == '\n' && '\n' !in text[..i]
    ensures FileLine(text[..i + 1])
  {
    assert text[..i + 1][..i] == text[..i];
  }

  function Concat(parts: seq<string>): string {
    if |parts| == 0 then [] else parts[0] + Concat(parts[1..])
  }

  lemma ConcatStep(lines: seq<string>, head: string, rest: seq<string>, tail: string, text: string)
    requires lines == [head] + rest && Concat(rest) == tail && head + tail == text
    ensures Concat(lines) == text
  {
    ConcatCons(head, rest);
  }

  lemma ConcatCons(head: string, rest: seq<string>)
    ensures Concat([head] + rest) == head + Concat(rest)
  {
    assert ([head] + rest)[1..] == rest;
  }

  /** Reading back a file written as newline-terminated lines yields those
      lines, each with its newline. */
  lemma {:induction false} FileLinesOfTerminated(parts: seq<string>)
    requires forall k :: 0 <= k < |parts| ==> '\n' !in parts[k]
    ensures FileLines(Terminated(parts)) == seq(|parts|, k requires 0 <= k < |parts| => parts[k] + "\n")
  {
    if |parts| > 0 {
      FileLinesOfTerminated(parts[1..]);
      assert Terminated(parts) == parts[0] + "\n" + Terminated(parts[1..]);
      FileLinesAfterLine(parts[0], Terminated(parts[1..]));
      WithNewlinesCons(parts, FileLines(Terminated(parts)), FileLines(Terminated(parts[1..])));
    }
  }

  lemma WithNewlinesCons(parts: seq<string>, lines: seq<string>, rest: seq<string>)
    requires |parts| > 0 && lines == [parts[0] + "\n"] + rest
    requires rest == seq(|parts[1..]|, k requires 0 <= k < |parts[1..]| => parts[1..][k] + "\n")
    ensures lines == seq(|parts|, k requires 0 <= k < |parts| => parts[k] + "\n")
  {
  }

  /** A first line without a newline, then its newline, is the first line
      of the file. */
  lemma FileLinesAfterLine(p: string, rest: string)
    requires '\n' !in p
    ensures FileLines(p + "\n" + rest) == [p + "\n"] + FileLines(rest)
  {
    var text := p + "\n" + rest;
    assert text[|p|] == '\n';
    assert text[..|p|] == p;
    assert Find(text, '\n') == |p|;
    assert text[..|p| + 1] == p + "\n";
    assert text[|p| + 1..] == rest;
  }
}
