/** The attribute parser (`parse_attributes`). */
module Attributes {
  import opened Errors
  import opened Text

  /** `[\$\w-]`: characters of an attribute name. */
  predicate IsAttrNameChar(c: char) { c == '$' || IsWordChar(c) || c == '-' }

  /** `[\w-]`: characters of a tag name. */
  predicate IsTagNameChar(c: char) { IsWordChar(c) || c == '-' }

  predicate IsNotQuote(c: char) { c != '"' }

  /** The end of the longest run of characters satisfying `p` that starts at `i`. */
  function Run(s: string, i: nat, p: char -> bool): (j: nat)
    requires i <= |s|
    ensures i <= j <= |s|
    decreases |s| - i
  {
    if i == |s| || !p(s[i]) then i else Run(s, i + 1, p)
  }

  /** Every character of the run satisfies `p`, and the one after it does not. */
  lemma {:induction false} RunProps(s: string, i: nat, p: char -> bool)
    requires i <= |s|
    ensures forall k :: i <= k < Run(s, i, p) ==> p(s[k])
    ensures Run(s, i, p) < |s| ==> !p(s[Run(s, i, p)])
    decreases |s| - i
  {
    if i < |s| && p(s[i]) { RunProps(s, i + 1, p); }
  }

  /** A run is determined by where it stops. */
  lemma {:induction false} RunIs(s: string, i: nat, j: nat, p: char -> bool)
    requires i <= j <= |s|
    requires forall k :: i <= k < j ==> p(s[k])
    requires j < |s| ==> !p(s[j])
    ensures Run(s, i, p) == j
    decreases j - i
  {
    if i < j { RunIs(s, i + 1, j, p); }
  }

  /** The end of the match of `^<\s*[\w-]+\s*`, if it matches. */
  function PrefixEnd(tag: string): (e: Option<nat>)
    ensures e.Some? ==> 2 <= e.value <= |tag|
  {
    if |tag| == 0 || tag[0] != '<' then None
    else
      var a := Run(tag, 1, IsSpace);
      var b := Run(tag, a, IsTagNameChar);
      if b == a then None else Some(Run(tag, b, IsSpace))
  }

  /** The match of `\/?>$`: where it starts and what it leaves after it (Python's `$`
      also matches just before a final newline). */
  function SuffixStart(tag: string): Option<(nat, string)> {
    if EndsWith(tag, "/>") then Some((|tag| - 2, ""))
    else if EndsWith(tag, ">") then Some((|tag| - 1, ""))
    else if EndsWith(tag, "/>\n") then Some((|tag| - 3, "\n"))
    else if EndsWith(tag, ">\n") then Some((|tag| - 2, "\n"))
    else None
  }

  /** The characters the prefix pattern can consume. */
  lemma PrefixChars(tag: string)
    requires PrefixEnd(tag).Some?
    ensures forall k :: 0 <= k < PrefixEnd(tag).value ==> tag[k] != '/' && tag[k] != '>'
  {
    var a := Run(tag, 1, IsSpace);
    var b := Run(tag, a, IsTagNameChar);
    var e := Run(tag, b, IsSpace);
    RunProps(tag, 1, IsSpace);
    RunProps(tag, a, IsTagNameChar);
    RunProps(tag, b, IsSpace);
    forall k | 0 <= k < e ensures tag[k] != '/' && tag[k] != '>' {
      if k == 0 {} else if k < a { assert IsSpace(tag[k]); }
      else if k < b { assert IsTagNameChar(tag[k]); } else { assert IsSpace(tag[k]); }
    }
  }

  /** The text left by `re.subn(r"(^<\s*[\w-]+\s*)|(\/?>$)", "", tag)` when it made
      exactly two substitutions, and None otherwise. */
  function StripTag(tag: string): Option<string> {
    match PrefixEnd(tag)
    case None => None
    case Some(e) =>
      match SuffixStart(tag)
      case None => None
      case Some((j, rest)) =>
        PrefixChars(tag);
        assert tag[j] == '/' || tag[j] == '>';
        Some(tag[e..j] + rest)
  }

  /** One match of `([\$\w-]+)\s*=\s*"([^"]*?)"\s*` at the start of a text. */
  datatype PairMatch = PairMatch(name: string, value: string, len: nat)

  function MatchPair(text: string): (m: Option<PairMatch>)
    ensures m.Some? ==> 0 < m.value.len <= |text| && '"' !in m.value.value
  {
    var a := Run(text, 0, IsAttrNameChar);
    if a == 0 then None
    else
      var b := Run(text, a, IsSpace);
      if b == |text| || text[b] != '=' then None
      else
        var c := Run(text, b + 1, IsSpace);
        if c == |text| || text[c] != '"' then None
        else
          var d := Run(text, c + 1, IsNotQuote);
          if d == |text| then None
          else
            RunProps(text, c + 1, IsNotQuote);
            var v := text[c + 1..d];
            assert forall k :: 0 <= k < |v| ==> IsNotQuote(v[k]);
            Some(PairMatch(text[..a], v, Run(text, d + 1, IsSpace)))
  }

  /** The source's loop: pairs are matched until the text is used up; None when some
      text is left that is not a pair. */
  function ParsePairs(text: string): Option<seq<(string, string)>>
    decreases |text|
  {
    if text == "" then Some([])
    else
      match MatchPair(text)
      case None => None
      case Some(m) =>
        match ParsePairs(text[m.len..])
        case None => None
        case Some(rest) => Some([(m.name, m.value)] + rest)
  }

  /** Assigning the pairs into a dictionary from left to right. */
  function Assign(m: map<string, string>, pairs: seq<(string, string)>): map<string, string>
    decreases |pairs|
  {
    if pairs == [] then m else Assign(m[pairs[0].0 := pairs[0].1], pairs[1..])
  }

  /** `parse_attributes(tag)`. */
  function ParseAttributesOf(tag: string): Result<map<string, string>> {
    match StripTag(tag)
    case None => Err(InvalidTag(tag))
    case Some(body) =>
      match ParsePairs(body)
      case None => Err(InvalidTag(tag))
      case Some(pairs) => Ok(Assign(map[], pairs))
  }

  /** The source's `while text != ""` loop filling the dictionary `ret`. */
  method ParseAttributes(tag: string) returns (r: Result<map<string, string>>)
    ensures r == ParseAttributesOf(tag)
  {
    var body := StripTag(tag);
    if body.None? {
      return Err(InvalidTag(tag));
    }
    var text := body.value;
    var ret: map<string, string> := map[];
    while text != ""
      invariant ParseAttributesOf(tag) ==
        match ParsePairs(text)
        case None => Err(InvalidTag(tag))
        case Some(pairs) => Ok(Assign(ret, pairs))
      decreases |text|
    {
      var m := MatchPair(text);
      if m.None? {
        return Err(InvalidTag(tag));
      }
      ret := ret[m.value.name := m.value.value];
      text := text[m.value.len..];
    }
    return Ok(ret);
  }

  /** The keys after assigning are the old keys and the names of the pairs. */
  lemma {:induction false} AssignKeys(m: map<string, string>, pairs: seq<(string, string)>)
    ensures Assign(m, pairs).Keys == m.Keys + set i | 0 <= i < |pairs| :: pairs[i].0
    decreases |pairs|
  {
    if pairs != [] {
      var rest := pairs[1..];
      AssignKeys(m[pairs[0].0 := pairs[0].1], rest);
      var all := set i | 0 <= i < |pairs| :: pairs[i].0;
      var later := set i | 0 <= i < |rest| :: rest[i].0;
      assert all == {pairs[0].0} + later by {
        forall x | x in all ensures x in {pairs[0].0} + later {
          var i :| 0 <= i < |pairs| && pairs[i].0 == x;
          if i > 0 { assert rest[i - 1].0 == x; }
        }
        forall x | x in later ensures x in all {
          var i :| 0 <= i < |rest| && rest[i].0 == x;
          assert pairs[i + 1].0 == x;
        }
      }
    }
  }

  /** A key that no pair names keeps its old value. */
  lemma {:induction false} AssignOther(m: map<string, string>, pairs: seq<(string, string)>, k: string)
    requires k in m && forall i :: 0 <= i < |pairs| ==> pairs[i].0 != k
    ensures k in Assign(m, pairs) && Assign(m, pairs)[k] == m[k]
    decreases |pairs|
  {
    if pairs != [] {
      var rest := pairs[1..];
      assert forall i :: 0 <= i < |rest| ==> rest[i].0 != k by {
        forall i | 0 <= i < |rest| ensures rest[i].0 != k { assert rest[i] == pairs[i + 1]; }
      }
      AssignOther(m[pairs[0].0 := pairs[0].1], rest, k);
    }
  }

  /** The last pair with a given name decides its value. */
  lemma {:induction false} AssignLast(m: map<string, string>, pairs: seq<(string, string)>, i: nat)
    requires i < |pairs| && forall j :: i < j < |pairs| ==> pairs[j].0 != pairs[i].0
    ensures pairs[i].0 in Assign(m, pairs) && Assign(m, pairs)[pairs[i].0] == pairs[i].1
    decreases |pairs|
  {
    var m' := m[pairs[0].0 := pairs[0].1];
    var rest := pairs[1..];
    if i == 0 {
      assert forall j :: 0 <= j < |rest| ==> rest[j].0 != pairs[0].0 by {
        forall j | 0 <= j < |rest| ensures rest[j].0 != pairs[0].0 { assert rest[j] == pairs[j + 1]; }
      }
      AssignOther(m', rest, pairs[0].0);
    } else {
      assert rest[i - 1] == pairs[i];
      assert forall j :: i - 1 < j < |rest| ==> rest[j].0 != rest[i - 1].0 by {
        forall j | i - 1 < j < |rest| ensures rest[j].0 != rest[i - 1].0 { assert rest[j] == pairs[j + 1]; }
      }
      AssignLast(m', rest, i - 1);
    }
  }

  /** Assigned values come from the old map or from the pairs. */
  lemma {:induction false} AssignValues(m: map<string, string>, pairs: seq<(string, string)>, k: string)
    requires k in Assign(m, pairs)
    ensures (k in m && Assign(m, pairs)[k] == m[k]) || exists i :: 0 <= i < |pairs| && Assign(m, pairs)[k] == pairs[i].1
    decreases |pairs|
  {
    if pairs != [] {
      var m' := m[pairs[0].0 := pairs[0].1];
      AssignValues(m', pairs[1..], k);
      if exists i :: 0 <= i < |pairs[1..]| && Assign(m', pairs[1..])[k] == pairs[1..][i].1 {
        var i :| 0 <= i < |pairs[1..]| && Assign(m', pairs[1..])[k] == pairs[1..][i].1;
        assert pairs[i + 1] == pairs[1..][i];
      }
    }
  }

  /** Every parsed pair has a non-empty name and a value without `"`. */
  lemma {:induction false} ParsePairsValues(text: string)
    requires ParsePairs(text).Some?
    ensures var ps := ParsePairs(text).value;
      forall i :: 0 <= i < |ps| ==> '"' !in ps[i].1 && ps[i].0 != ""
    decreases |text|
  {
    if text != "" {
      var m := MatchPair(text).value;
      ParsePairsValues(text[m.len..]);
      var ps := ParsePairs(text).value;
      var rest := ParsePairs(text[m.len..]).value;
      assert ps == [(m.name, m.value)] + rest;
      assert m.name != "" by { assert |m.name| == Run(text, 0, IsAttrNameChar); }
      forall i | 0 < i < |ps| ensures '"' !in ps[i].1 && ps[i].0 != "" { assert ps[i] == rest[i - 1]; }
    }
  }

  /** Attribute values never contain `"` and are returned as written. */
  lemma ParsedValuesHaveNoQuote(tag: string)
    requires ParseAttributesOf(tag).Ok?
    ensures var m := ParseAttributesOf(tag).value; forall k :: k in m ==> '"' !in m[k]
  {
    var pairs := ParsePairs(StripTag(tag).value).value;
    ParsePairsValues(StripTag(tag).value);
    forall k | k in ParseAttributesOf(tag).value ensures '"' !in ParseAttributesOf(tag).value[k] {
      AssignValues(map[], pairs, k);
    }
  }

  /** For a repeated attribute name the last occurrence wins; the keys are exactly the
      names read. */
  lemma ParseAttributesLastWins(tag: string)
    requires StripTag(tag).Some? && ParsePairs(StripTag(tag).value).Some?
    ensures var pairs := ParsePairs(StripTag(tag).value).value;
      var r := ParseAttributesOf(tag);
      && r.Ok?
      && r.value.Keys == (set i | 0 <= i < |pairs| :: pairs[i].0)
      && forall i :: 0 <= i < |pairs| && (forall j :: i < j < |pairs| ==> pairs[j].0 != pairs[i].0) ==>
           r.value[pairs[i].0] == pairs[i].1
  {
    var pairs := ParsePairs(StripTag(tag).value).value;
    AssignKeys(map[], pairs);
    forall i | 0 <= i < |pairs| && (forall j :: i < j < |pairs| ==> pairs[j].0 != pairs[i].0)
      ensures Assign(map[], pairs)[pairs[i].0] == pairs[i].1
    {
      AssignLast(map[], pairs, i);
    }
  }

  /** Every failure of the parser is "invalid tag", naming the whole tag. */
  lemma InvalidTagOnly(tag: string)
    ensures ParseAttributesOf(tag).Err? ==> ParseAttributesOf(tag).error == InvalidTag(tag)
  {
  }

  /** A tag that does not open with `<`, or does not close with `>` (or `>` and a
      final newline), is invalid. */
  lemma ParseAttributesFails(tag: string)
    ensures tag == "" || tag[0] != '<' ==> ParseAttributesOf(tag) == Err(InvalidTag(tag))
    ensures !EndsWith(tag, ">") && !EndsWith(tag, ">\n") ==> ParseAttributesOf(tag) == Err(InvalidTag(tag))
  {
  }

  predicate IsTagName(n: string) { n != "" && forall i :: 0 <= i < |n| ==> IsTagNameChar(n[i]) }

  /** `<t>` and `<t/>` have no attributes. */
  lemma EmptyTag(n: string)
    requires IsTagName(n)
    ensures ParseAttributesOf("<" + n + ">") == Ok(map[])
    ensures ParseAttributesOf("<" + n + "/>") == Ok(map[])
  {
    EmptyOpenTag(n);
    EmptySelfClosingTag(n);
  }

  lemma EmptyOpenTag(n: string)
    requires IsTagName(n)
    ensures StripTag("<" + n + ">") == Some("")
  {
    var t := "<" + n + ">";
    RunIs(t, 1, 1, IsSpace);
    RunIs(t, 1, |n| + 1, IsTagNameChar);
    RunIs(t, |n| + 1, |n| + 1, IsSpace);
    assert PrefixEnd(t) == Some(|n| + 1);
    assert SuffixStart(t) == Some((|n| + 1, "")) by { assert !EndsWith(t, "/>") by { assert t[|t| - 2] == n[|n| - 1]; } }
    assert t[|n| + 1..|n| + 1] + "" == "";
  }

  lemma EmptySelfClosingTag(n: string)
    requires IsTagName(n)
    ensures StripTag("<" + n + "/>") == Some("")
  {
    var t := "<" + n + "/>";
    RunIs(t, 1, 1, IsSpace);
    RunIs(t, 1, |n| + 1, IsTagNameChar);
    RunIs(t, |n| + 1, |n| + 1, IsSpace);
    assert PrefixEnd(t) == Some(|n| + 1);
    assert SuffixStart(t) == Some((|n| + 1, ""));
    assert t[|n| + 1..|n| + 1] + "" == "";
  }

  predicate IsAttrName(n: string) { n != "" && forall i :: 0 <= i < |n| ==> IsAttrNameChar(n[i]) }

  predicate WellFormedPairs(pairs: seq<(string, string)>) {
    forall i :: 0 <= i < |pairs| ==> IsAttrName(pairs[i].0) && '"' !in pairs[i].1
  }

  /** Writing pairs out as `name="value" ` each. */
  function RenderPairs(pairs: seq<(string, string)>): string
    decreases |pairs|
  {
    if pairs == [] then "" else PairText(pairs[0].0, pairs[0].1, RenderPairs(pairs[1..]))
  }

  /** An opening tag `<n name="value" ...>` (or `.../>`) written from its parts. */
  function RenderTag(n: string, pairs: seq<(string, string)>, selfClosing: bool): string {
    "<" + n + " " + RenderPairs(pairs) + (if selfClosing then "/>" else ">")
  }

  lemma RenderedStart(pairs: seq<(string, string)>)
    requires WellFormedPairs(pairs)
    ensures RenderPairs(pairs) == "" || IsAttrNameChar(RenderPairs(pairs)[0])
  {
    if pairs != [] { assert RenderPairs(pairs)[0] == pairs[0].0[0]; }
  }

  /** One rendered pair followed by `rest`. */
  function PairText(name: string, value: string, rest: string): string {
    name + "=\"" + value + "\" " + rest
  }

  lemma PairTextChars(name: string, value: string, rest: string)
    ensures var t := PairText(name, value, rest); var a := |name|; var d := a + 2 + |value|;
      && |t| == d + 2 + |rest|
      && (forall k :: 0 <= k < a ==> t[k] == name[k])
      && t[a] == '=' && t[a + 1] == '"'
      && (forall k :: a + 2 <= k < d ==> t[k] == value[k - a - 2])
      && t[d] == '"' && t[d + 1] == ' '
      && (rest != [] ==> t[d + 2] == rest[0])
  {
  }

  lemma PairTextNameRuns(name: string, value: string, rest: string)
    requires IsAttrName(name)
    ensures var t := PairText(name, value, rest);
      && Run(t, 0, IsAttrNameChar) == |name|
      && Run(t, |name|, IsSpace) == |name| && Run(t, |name| + 1, IsSpace) == |name| + 1
  {
    var t := PairText(name, value, rest);
    PairTextChars(name, value, rest);
    RunIs(t, 0, |name|, IsAttrNameChar);
    RunIs(t, |name|, |name|, IsSpace);
    RunIs(t, |name| + 1, |name| + 1, IsSpace);
  }

  lemma PairTextValueRun(name: string, value: string, rest: string)
    requires '"' !in value
    ensures Run(PairText(name, value, rest), |name| + 2, IsNotQuote) == |name| + 2 + |value|
  {
    var t := PairText(name, value, rest);
    var d := |name| + 2 + |value|;
    PairTextChars(name, value, rest);
    forall k | |name| + 2 <= k < d ensures IsNotQuote(t[k]) {
      assert value[k - |name| - 2] in value;
    }
    RunIs(t, |name| + 2, d, IsNotQuote);
  }

  lemma PairTextSpaceRun(name: string, value: string, rest: string)
    requires rest == "" || IsAttrNameChar(rest[0])
    ensures var d := |name| + 2 + |value|; Run(PairText(name, value, rest), d + 1, IsSpace) == d + 2
  {
    var t := PairText(name, value, rest);
    var d := |name| + 2 + |value|;
    PairTextChars(name, value, rest);
    RunIs(t, d + 1, d + 2, IsSpace);
  }

  lemma PairTextSlices(name: string, value: string, rest: string)
    ensures var t := PairText(name, value, rest); var a := |name|; var d := a + 2 + |value|;
      t[..a] == name && t[a + 2..d] == value
  {
  }

  /** `MatchPair` in terms of where each of its runs stops. */
  lemma MatchPairIs(text: string, a: nat, c: nat, d: nat, e: nat)
    requires 0 < a && a + 1 <= c && c < d < e <= |text|
    requires Run(text, 0, IsAttrNameChar) == a && Run(text, a, IsSpace) == a && text[a] == '='
    requires c == a + 1 && Run(text, c, IsSpace) == c && text[c] == '"'
    requires Run(text, c + 1, IsNotQuote) == d && text[d] == '"' && Run(text, d + 1, IsSpace) == e
    ensures MatchPair(text) == Some(PairMatch(text[..a], text[c + 1..d], e))
  {
  }

  lemma MatchRenderedPair(name: string, value: string, rest: string)
    requires IsAttrName(name) && '"' !in value && (rest == "" || IsAttrNameChar(rest[0]))
    ensures MatchPair(PairText(name, value, rest)) == Some(PairMatch(name, value, |name| + |value| + 4))
  {
    var t := PairText(name, value, rest);
    PairTextNameRuns(name, value, rest);
    PairTextValueRun(name, value, rest);
    PairTextSpaceRun(name, value, rest);
    PairTextChars(name, value, rest);
    PairTextSlices(name, value, rest);
    MatchPairIs(t, |name|, |name| + 1, |name| + 2 + |value|, |name| + 4 + |value|);
  }

  /** Rendered pairs parse back to themselves. */
  lemma {:induction false} ParseRenderedPairs(pairs: seq<(string, string)>)
    requires WellFormedPairs(pairs)
    ensures ParsePairs(RenderPairs(pairs)) == Some(pairs)
    decreases |pairs|
  {
    if pairs != [] {
      var rest := pairs[1..];
      var r := RenderPairs(rest);
      assert WellFormedPairs(rest) by {
        forall i | 0 <= i < |rest| ensures IsAttrName(rest[i].0) && '"' !in rest[i].1 { assert rest[i] == pairs[i + 1]; }
      }
      RenderedStart(rest);
      ParseRenderedPairs(rest);
      var t := RenderPairs(pairs);
      MatchRenderedPair(pairs[0].0, pairs[0].1, r);
      var len := |pairs[0].0| + |pairs[0].1| + 4;
      assert t[len..] == r;
      assert [(pairs[0].0, pairs[0].1)] + rest == pairs;
    }
  }

  lemma RenderedEnd(pairs: seq<(string, string)>)
    ensures RenderPairs(pairs) == "" || RenderPairs(pairs)[|RenderPairs(pairs)| - 1] == ' '
    decreases |pairs|
  {
    if pairs != [] {
      RenderedEnd(pairs[1..]);
      var r := RenderPairs(pairs[1..]);
      var t := RenderPairs(pairs);
      if r == "" { assert t == pairs[0].0 + "=\"" + pairs[0].1 + "\" "; }
      else { assert t[|t| - 1] == r[|r| - 1]; }
    }
  }

  /** An opening tag around already rendered pairs `r`. */
  function TagText(n: string, r: string, tail: string): string { "<" + n + " " + r + tail }

  lemma TagTextPrefix(n: string, r: string, tail: string)
    requires IsTagName(n) && (r == "" || IsAttrNameChar(r[0])) && (tail == "/>" || tail == ">")
    ensures PrefixEnd(TagText(n, r, tail)) == Some(|n| + 2)
  {
    var t := TagText(n, r, tail);
    assert t[1..|n| + 1] == n;
    assert t[0] == '<' && t[|n| + 1] == ' ';
    assert t[|n| + 2] == (if r == "" then tail[0] else r[0]);
    forall k | 1 <= k < |n| + 1 ensures IsTagNameChar(t[k]) { assert t[1..|n| + 1][k - 1] == t[k]; }
    RunIs(t, 1, 1, IsSpace);
    RunIs(t, 1, |n| + 1, IsTagNameChar);
    RunIs(t, |n| + 1, |n| + 2, IsSpace);
  }

  lemma TagTextSuffix(n: string, r: string, tail: string)
    requires (r == "" || r[|r| - 1] == ' ') && (tail == "/>" || tail == ">")
    ensures SuffixStart(TagText(n, r, tail)) == Some((|TagText(n, r, tail)| - |tail|, ""))
  {
    var t := TagText(n, r, tail);
    if tail == "/>" {
      assert t[|t| - 2..] == "/>";
    } else {
      assert t[|t| - 2] == ' ';
      assert t[|t| - 1..] == ">";
    }
  }

  lemma TagTextBody(n: string, r: string, tail: string)
    ensures var t := TagText(n, r, tail); t[|n| + 2..|t| - |tail|] == r
  {
  }

  /** The two strips of a rendered tag leave exactly the rendered pairs. */
  lemma StripRenderedTag(n: string, pairs: seq<(string, string)>, selfClosing: bool)
    requires IsTagName(n) && WellFormedPairs(pairs)
    ensures StripTag(RenderTag(n, pairs, selfClosing)) == Some(RenderPairs(pairs))
  {
    var r := RenderPairs(pairs);
    var tail := if selfClosing then "/>" else ">";
    assert RenderTag(n, pairs, selfClosing) == TagText(n, r, tail);
    RenderedStart(pairs);
    RenderedEnd(pairs);
    TagTextPrefix(n, r, tail);
    TagTextSuffix(n, r, tail);
    TagTextBody(n, r, tail);
    var t := TagText(n, r, tail);
    assert t[|n| + 2..|t| - |tail|] + "" == r;
  }

  /** Parsing a rendered tag gives the pairs as a dictionary, the last of a repeated name winning. */
  lemma ParseRenderedTag(n: string, pairs: seq<(string, string)>, selfClosing: bool)
    requires IsTagName(n) && WellFormedPairs(pairs)
    ensures ParseAttributesOf(RenderTag(n, pairs, selfClosing)) == Ok(Assign(map[], pairs))
  {
    StripRenderedTag(n, pairs, selfClosing);
    ParseRenderedPairs(pairs);
  }

  /** `ParsePairs` after rendered pairs goes on with what follows them. */
  function Appended(pairs: seq<(string, string)>, r: Option<seq<(string, string)>>): Option<seq<(string, string)>> {
    match r
    case None => None
    case Some(more) => Some(pairs + more)
  }

  /** Rendered pairs parse back to themselves, and the parse then goes on with the
      text after them. */
  lemma {:induction false} ParsePairsAppend(pairs: seq<(string, string)>, rest: string)
    requires WellFormedPairs(pairs) && (rest == "" || IsAttrNameChar(rest[0]))
    ensures ParsePairs(RenderPairs(pairs) + rest) == Appended(pairs, ParsePairs(rest))
    decreases |pairs|
  {
    if pairs != [] {
      var tail := pairs[1..];
      var r := RenderPairs(tail) + rest;
      RenderTail(pairs, rest);
      ParsePairsAppend(tail, rest);
      ParsePairsCons(pairs[0].0, pairs[0].1, r);
      AppendedCons(pairs, ParsePairs(rest));
    } else {
      assert RenderPairs(pairs) + rest == rest;
      if ParsePairs(rest).Some? { assert pairs + ParsePairs(rest).value == ParsePairs(rest).value; }
    }
  }

  /** The first pair of a rendering, and what the rest of it starts with. */
  lemma RenderTail(pairs: seq<(string, string)>, rest: string)
    requires pairs != [] && WellFormedPairs(pairs) && (rest == "" || IsAttrNameChar(rest[0]))
    ensures var r := RenderPairs(pairs[1..]) + rest;
      && WellFormedPairs(pairs[1..]) && IsAttrName(pairs[0].0) && '"' !in pairs[0].1
      && (r == "" || IsAttrNameChar(r[0]))
      && RenderPairs(pairs) + rest == PairText(pairs[0].0, pairs[0].1, r)
  {
    var tail := pairs[1..];
    assert WellFormedPairs(tail) by {
      forall i | 0 <= i < |tail| ensures IsAttrName(tail[i].0) && '"' !in tail[i].1 { assert tail[i] == pairs[i + 1]; }
    }
    RenderedStart(tail);
    var r := RenderPairs(tail) + rest;
    if RenderPairs(tail) != "" { assert r[0] == RenderPairs(tail)[0]; }
  }

  lemma AppendedCons(pairs: seq<(string, string)>, r: Option<seq<(string, string)>>)
    requires pairs != []
    ensures Appended([pairs[0]], Appended(pairs[1..], r)) == Appended(pairs, r)
  {
    if r.Some? { assert [pairs[0]] + (pairs[1..] + r.value) == pairs + r.value; }
  }

  /** One rendered pair is read, and the parse goes on after it. */
  lemma ParsePairsCons(name: string, value: string, r: string)
    requires IsAttrName(name) && '"' !in value && (r == "" || IsAttrNameChar(r[0]))
    ensures ParsePairs(PairText(name, value, r)) == Appended([(name, value)], ParsePairs(r))
  {
    MatchRenderedPair(name, value, r);
    assert PairText(name, value, r)[|name| + |value| + 4..] == r;
  }

  /** `name="value` with no closing `"` is not a pair. */
  lemma UnclosedPair(name: string, value: string)
    requires IsAttrName(name) && '"' !in value
    ensures ParsePairs(name + "=\"" + value) == None
  {
    var t := name + "=\"" + value;
    var a := |name|;
    assert t[a] == '=' && t[a + 1] == '"';
    forall k | 0 <= k < a ensures IsAttrNameChar(t[k]) { assert t[k] == name[k]; }
    RunIs(t, 0, a, IsAttrNameChar);
    RunIs(t, a, a, IsSpace);
    RunIs(t, a + 1, a + 1, IsSpace);
    forall k | a + 2 <= k < |t| ensures IsNotQuote(t[k]) { assert t[k] == value[k - a - 2]; }
    RunIs(t, a + 2, |t|, IsNotQuote);
  }

  /** A tag whose last value lacks its closing `"` is invalid, after any number of
      well-formed pairs. */
  lemma UnclosedValueFails(n: string, pairs: seq<(string, string)>, name: string, value: string)
    requires IsTagName(n) && WellFormedPairs(pairs) && IsAttrName(name) && '"' !in value
    ensures var tag := "<" + n + " " + RenderPairs(pairs) + name + "=\"" + value + ">";
      ParseAttributesOf(tag) == Err(InvalidTag(tag))
  {
    var pre := "<" + n + " " + RenderPairs(pairs) + name + "=\"";
    if value != "" && value[|value| - 1] == '/' {
      var v := value[..|value| - 1];
      assert value == v + "/";
      assert '"' !in v by { assert forall k :: 0 <= k < |v| ==> v[k] == value[k]; }
      assert pre + value + ">" == pre + v + "/>";
      UnclosedTag(n, pairs, name, v, "/>");
    } else {
      UnclosedTag(n, pairs, name, value, ">");
    }
  }

  lemma UnclosedTag(n: string, pairs: seq<(string, string)>, name: string, v: string, tail: string)
    requires IsTagName(n) && WellFormedPairs(pairs) && IsAttrName(name) && '"' !in v
    requires tail == "/>" || (tail == ">" && (v == "" || v[|v| - 1] != '/'))
    ensures var tag := "<" + n + " " + RenderPairs(pairs) + name + "=\"" + v + tail;
      ParseAttributesOf(tag) == Err(InvalidTag(tag))
  {
    var rest := name + "=\"" + v;
    var body := RenderPairs(pairs) + rest;
    UnclosedBody(pairs, name, v);
    UnclosedPair(name, v);
    ParsePairsAppend(pairs, rest);
    UnparsedTag(n, body, tail);
    UnclosedTagText(n, RenderPairs(pairs), name, v, tail);
  }

  lemma UnclosedTagText(n: string, r: string, name: string, v: string, tail: string)
    ensures "<" + n + " " + r + name + "=\"" + v + tail == TagText(n, r + (name + "=\"" + v), tail)
  {
  }

  /** A tag whose attribute text strips cleanly but does not parse is invalid. */
  lemma UnparsedTag(n: string, body: string, tail: string)
    requires IsTagName(n) && body != "" && IsAttrNameChar(body[0]) && ParsePairs(body) == None
    requires tail == "/>" || (tail == ">" && body[|body| - 1] != '/')
    ensures ParseAttributesOf(TagText(n, body, tail)) == Err(InvalidTag(TagText(n, body, tail)))
  {
    StripUnclosed(n, body, tail);
  }

  /** The text of well-formed pairs followed by an unclosed value starts with a name
      character and ends with the value's last character, or its `"`. */
  lemma UnclosedBody(pairs: seq<(string, string)>, name: string, v: string)
    requires WellFormedPairs(pairs) && IsAttrName(name)
    ensures var body := RenderPairs(pairs) + (name + "=\"" + v);
      && IsAttrNameChar(body[0]) && body[|body| - 1] == (if v == "" then '"' else v[|v| - 1])
  {
    var body := RenderPairs(pairs) + (name + "=\"" + v);
    RenderedStart(pairs);
    if RenderPairs(pairs) == "" { assert body[0] == name[0]; } else { assert body[0] == RenderPairs(pairs)[0]; }
  }

  /** The two strips of a tag ending in an unclosed value leave everything between
      the tag name and the suffix. */
  lemma StripUnclosed(n: string, body: string, tail: string)
    requires IsTagName(n) && body != "" && IsAttrNameChar(body[0])
    requires tail == "/>" || (tail == ">" && body[|body| - 1] != '/')
    ensures StripTag(TagText(n, body, tail)) == Some(body)
  {
    var t := TagText(n, body, tail);
    TagTextPrefix(n, body, tail);
    UnclosedSuffix(n, body, tail);
    TagTextBody(n, body, tail);
    assert t[|n| + 2..|t| - |tail|] + "" == body;
  }

  /** Where the suffix strip of a tag ending in a value without its `"` applies. */
  lemma UnclosedSuffix(n: string, body: string, tail: string)
    requires body != "" && (tail == "/>" || (tail == ">" && body[|body| - 1] != '/'))
    ensures SuffixStart(TagText(n, body, tail)) == Some((|TagText(n, body, tail)| - |tail|, ""))
  {
    var t := TagText(n, body, tail);
    if tail == "/>" {
      assert t[|t| - 2..] == "/>";
    } else {
      assert t[|t| - 2] == body[|body| - 1];
      assert t[|t| - 1..] == ">";
    }
  }
}
