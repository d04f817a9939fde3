/** Character classes and string helpers shared by the scanners. */
module Text {

  /** Python's `\s` and `str.strip` whitespace, restricted to ASCII and the
      separators 0x1C-0x1F. */
  predicate IsSpace(c: char) {
    c == ' ' || c == '\t' || c == '\n' || c == '\r' || c == '\U{B}' || c == '\U{C}'
    || ('\U{1C}' <= c <= '\U{1F}')
  }

  /** Python's `\w`, restricted to ASCII. */
  predicate IsWordChar(c: char) {
    ('a' <= c <= 'z') || ('A' <= c <= 'Z') || ('0' <= c <= '9') || c == '_'
  }

  /** `p` occurs in `text` at offset `k`. */
  predicate StartsAt(text: string, k: int, p: string) {
    0 <= k && k + |p| <= |text| && text[k..k + |p|] == p
  }

  predicate EndsWith(text: string, p: string) {
    |p| <= |text| && text[|text| - |p|..] == p
  }

  predicate AllSpace(s: string) {
    forall i :: 0 <= i < |s| ==> IsSpace(s[i])
  }

  /** Number of leading whitespace characters. */
  function LeadingSpace(s: string): (n: nat)
    ensures n <= |s|
  {
    if s == [] || !IsSpace(s[0]) then 0 else 1 + LeadingSpace(s[1..])
  }

  lemma {:induction false} LeadingSpaceAll(s: string)
    ensures AllSpace(s[..LeadingSpace(s)])
    ensures LeadingSpace(s) < |s| ==> !IsSpace(s[LeadingSpace(s)])
  {
    if s != [] && IsSpace(s[0]) {
      LeadingSpaceAll(s[1..]);
      var n := LeadingSpace(s);
      assert forall i :: 1 <= i < n ==> s[..n][i] == s[1..][..n - 1][i - 1];
    }
  }

  /** Number of trailing whitespace characters. */
  function TrailingSpace(s: string): (n: nat)
    ensures n <= |s|
  {
    if s == [] || !IsSpace(s[|s| - 1]) then 0 else TrailingSpace(s[..|s| - 1]) + 1
  }

  lemma {:induction false} TrailingSpaceAll(s: string)
    ensures AllSpace(s[|s| - TrailingSpace(s)..])
    ensures TrailingSpace(s) < |s| ==> !IsSpace(s[|s| - TrailingSpace(s) - 1])
  {
    if s != [] && IsSpace(s[|s| - 1]) {
      var t := s[..|s| - 1];
      TrailingSpaceAll(t);
      var m := TrailingSpace(t);
      assert s[|s| - (m + 1)..] == t[|t| - m..] + [s[|s| - 1]];
    }
  }

  /** Python's `str.strip()`: what is left after dropping surrounding whitespace. */
  function Strip(s: string): (r: string)
    ensures |r| <= |s|
  {
    var a := LeadingSpace(s);
    var t := s[a..];
    var b := TrailingSpace(t);
    t[..|t| - b]
  }

  /** The stripped string is a middle slice with only whitespace around it. */
  lemma StripSlice(s: string)
    ensures exists i, j :: 0 <= i <= j <= |s| && Strip(s) == s[i..j] && AllSpace(s[..i]) && AllSpace(s[j..])
    ensures var r := Strip(s); r != [] ==> !IsSpace(r[0]) && !IsSpace(r[|r| - 1])
  {
    var a := LeadingSpace(s);
    var t := s[a..];
    var b := TrailingSpace(t);
    var j := a + |t| - b;
    LeadingSpaceAll(s);
    TrailingSpaceAll(t);
    var r := Strip(s);
    assert r == t[..|t| - b];
    assert r == s[a..j];
    assert s[j..] == t[|t| - b..];
    if r != [] {
      assert r[0] == s[a];
      assert r[|r| - 1] == t[|t| - b - 1];
    }
  }

  /** Python's `str.split(d)` with a one-character separator. */
  function Split(s: string, d: char): (parts: seq<string>)
    ensures |parts| >= 1
  {
    if s == [] then [""]
    else
      var rest := Split(s[1..], d);
      if s[0] == d then [""] + rest
      else [[s[0]] + rest[0]] + rest[1..]
  }

  /** No part of a split holds the separator. */
  lemma {:induction false} SplitParts(s: string, d: char)
    ensures forall k :: 0 <= k < |Split(s, d)| ==> d !in Split(s, d)[k]
  {
    if s != [] {
      SplitParts(s[1..], d);
      var rest := Split(s[1..], d);
      if s[0] != d {
        assert forall k :: 1 <= k < |rest| ==> Split(s, d)[k] == rest[k];
      }
    }
  }

  /** The inverse of `Split`: the parts joined with the separator. */
  function Join(parts: seq<string>, d: char): string
    requires |parts| >= 1
  {
    if |parts| == 1 then parts[0] else parts[0] + [d] + Join(parts[1..], d)
  }

  /** Number of occurrences of `c` in `s`. */
  function Count(s: string, c: char): nat {
    if s == [] then 0 else (if s[0] == c then 1 else 0) + Count(s[1..], c)
  }

  /** Splitting and joining again gives back the original string. */
  lemma {:induction false} JoinSplit(s: string, d: char)
    ensures Join(Split(s, d), d) == s
  {
    if s != [] {
      JoinSplit(s[1..], d);
      if s[0] == d { JoinSplitSeparator(s, d); } else { JoinSplitOther(s, d); }
    }
  }

  lemma JoinSplitSeparator(s: string, d: char)
    requires s != [] && s[0] == d && Join(Split(s[1..], d), d) == s[1..]
    ensures Join(Split(s, d), d) == s
  {
    var rest := Split(s[1..], d);
    assert s == [s[0]] + s[1..];
    assert Split(s, d) == [""] + rest;
    JoinCons("", rest, d);
  }

  lemma JoinSplitOther(s: string, d: char)
    requires s != [] && s[0] != d && Join(Split(s[1..], d), d) == s[1..]
    ensures Join(Split(s, d), d) == s
  {
    var rest := Split(s[1..], d);
    assert s == [s[0]] + s[1..];
    assert Split(s, d) == [[s[0]] + rest[0]] + rest[1..];
    if |rest| > 1 { JoinExtendHead(s[0], rest, d); }
  }

  /** Putting a character in front of the first part puts it in front of the join. */
  lemma JoinExtendHead(c: char, parts: seq<string>, d: char)
    requires |parts| > 1
    ensures Join([[c] + parts[0]] + parts[1..], d) == [c] + Join(parts, d)
  {
    JoinCons([c] + parts[0], parts[1..], d);
    assert parts == [parts[0]] + parts[1..];
    JoinCons(parts[0], parts[1..], d);
  }

  lemma JoinCons(head: string, tail: seq<string>, d: char)
    requires |tail| >= 1
    ensures Join([head] + tail, d) == head + [d] + Join(tail, d)
  {
    assert ([head] + tail)[1..] == tail;
  }

  /** A string splits into one part more than it has separators. */
  lemma {:induction false} SplitCount(s: string, d: char)
    ensures |Split(s, d)| == Count(s, d) + 1
  {
    if s != [] { SplitCount(s[1..], d); }
  }

  /** A slice of a slice is a slice of the original. */
  lemma SliceOfSlice(t: string, a: nat, b: nat, i: nat, j: nat)
    requires a <= b <= |t| && i <= j <= b - a
    ensures t[a..b][i..j] == t[a + i..a + j]
  {
    assert forall k :: 0 <= k < j - i ==> t[a..b][i..j][k] == t[a + i..a + j][k];
  }

  /** A text that starts with `p` at `k` starts there with every prefix of `p`. */
  lemma StartsAtPrefix(text: string, k: int, p: string, m: nat)
    requires StartsAt(text, k, p) && m <= |p|
    ensures StartsAt(text, k, p[..m])
  {
    SliceOfSlice(text, k, k + |p|, 0, m);
  }

  /** Where `x + y` lies at `b`, `x` lies at `b` and `y` right after it. */
  lemma SplitAt(text: string, b: nat, x: string, y: string)
    requires b + |x| + |y| <= |text| && text[b..b + |x| + |y|] == x + y
    ensures text[b..b + |x|] == x && text[b + |x|..b + |x| + |y|] == y
  {
    SliceOfSlice(text, b, b + |x| + |y|, 0, |x|);
    SliceOfSlice(text, b, b + |x| + |y|, |x|, |x| + |y|);
    assert (x + y)[0..|x|] == x;
    assert (x + y)[|x|..|x| + |y|] == y;
  }
}
