/** The quote-aware substring search (`index_ignore_quoted`). */
module Scanner {
  import opened Errors
  import opened Text

  predicate IsQuoteChar(c: char) { c == '"' || c == '\'' }

  /** A quote character not preceded by a backslash opens a quoted region. */
  predicate OpensQuote(text: string, i: nat)
    requires i < |text|
  {
    IsQuoteChar(text[i]) && !(i > 0 && text[i - 1] == '\\')
  }

  /** The quote state after looking at `text[i]` in state `q`: outside a region an
      opening quote enters one; inside, the same quote character (escaped or not) leaves it. */
  function Step(text: string, i: nat, q: Option<char>): Option<char>
    requires i < |text|
  {
    if q.None? then (if OpensQuote(text, i) then Some(text[i]) else None)
    else if text[i] == q.value then None
    else q
  }

  /** The quote state in force at position `i` of a scan that began, unquoted, at `b`. */
  function QuoteAt(text: string, b: nat, i: nat): Option<char>
    requires b <= i && (i == b || i <= |text|)
    decreases i - b
  {
    if i == b then None else Step(text, i - 1, QuoteAt(text, b, i - 1))
  }

  /** `s` occurs at `i`, and a scan begun at `b` is outside any quoted region there
      (an opening quote at `i` itself takes precedence over a match). */
  predicate UnquotedMatch(text: string, s: string, b: nat, i: nat) {
    |s| > 0 && b <= i && i + |s| <= |text| && QuoteAt(text, b, i).None?
    && !OpensQuote(text, i) && text[i..i + |s|] == s
  }

  /** The scan from position `i` in quote state `q`. */
  function UnquotedIndexFrom(text: string, s: string, i: nat, q: Option<char>): Option<nat>
    requires |s| > 0
    decreases |text| - i
  {
    if i + |s| > |text| then None
    else if q.None? && !OpensQuote(text, i) && text[i..i + |s|] == s then Some(i)
    else UnquotedIndexFrom(text, s, i + 1, Step(text, i, q))
  }

  /** The first unquoted occurrence of `s` at or after `b`, or None ("not present"). */
  function UnquotedIndex(text: string, s: string, b: nat): Option<nat>
    requires |s| > 0
  {
    UnquotedIndexFrom(text, s, b, None)
  }

  lemma {:induction false} UnquotedIndexFromCorrect(text: string, s: string, b: nat, i: nat)
    requires |s| > 0 && b <= i && (i == b || i <= |text|)
    requires forall j :: b <= j < i ==> !UnquotedMatch(text, s, b, j)
    ensures var r := UnquotedIndexFrom(text, s, i, QuoteAt(text, b, i));
      && (r.Some? ==> UnquotedMatch(text, s, b, r.value) && forall j :: b <= j < r.value ==> !UnquotedMatch(text, s, b, j))
      && (r.None? ==> forall j :: b <= j ==> !UnquotedMatch(text, s, b, j))
    decreases |text| - i
  {
    var q := QuoteAt(text, b, i);
    if i + |s| > |text| {
    } else if q.None? && !OpensQuote(text, i) && text[i..i + |s|] == s {
    } else {
      assert !UnquotedMatch(text, s, b, i);
      assert QuoteAt(text, b, i + 1) == Step(text, i, q);
      UnquotedIndexFromCorrect(text, s, b, i + 1);
    }
  }

  /** `UnquotedIndex` is the least `i >= b` at which `s` occurs outside quotes. */
  lemma UnquotedIndexCorrect(text: string, s: string, b: nat)
    requires |s| > 0
    ensures var r := UnquotedIndex(text, s, b);
      && (r.Some? ==> UnquotedMatch(text, s, b, r.value) && forall j :: b <= j < r.value ==> !UnquotedMatch(text, s, b, j))
      && (r.None? ==> forall j :: b <= j ==> !UnquotedMatch(text, s, b, j))
  {
    UnquotedIndexFromCorrect(text, s, b, b);
  }

  /** Where a found `>` lies. */
  lemma GtFound(text: string, b: nat)
    ensures var r := UnquotedIndex(text, ">", b);
      r.Some? ==> b <= r.value < |text| && text[r.value] == '>'
  {
    UnquotedIndexCorrect(text, ">", b);
    var r := UnquotedIndex(text, ">", b);
    if r.Some? { assert text[r.value..r.value + 1] == ">"; }
  }

  /** The source's loop: a `for` over the candidate positions updating `quote`. */
  method IndexIgnoreQuoted(text: string, s: string, b: nat) returns (r: Option<nat>)
    requires |s| > 0
    ensures r == UnquotedIndex(text, s, b)
  {
    var quote: Option<char> := None;
    var i := b;
    while i + |s| <= |text|
      invariant b <= i && (i == b || i <= |text|)
      invariant quote == QuoteAt(text, b, i)
      invariant UnquotedIndexFrom(text, s, i, quote) == UnquotedIndex(text, s, b)
    {
      if quote.None? {
        if IsQuoteChar(text[i]) && !(i > 0 && text[i - 1] == '\\') {
          quote := Some(text[i]);
        } else if text[i..i + |s|] == s {
          return Some(i);
        }
      } else if text[i] == quote.value {
        quote := None;
      }
      i := i + 1;
    }
    return None;
  }

  /** One character of the scan for a one-character needle `c` that does not stop it. */
  lemma SkipChar(text: string, c: char, i: nat, q: Option<char>, q': Option<char>)
    requires i < |text| && !(q.None? && !OpensQuote(text, i) && text[i] == c) && Step(text, i, q) == q'
    ensures UnquotedIndexFrom(text, [c], i, q) == UnquotedIndexFrom(text, [c], i + 1, q')
  {
    assert text[i..i + 1] == [text[i]];
  }

  /** `s` holds no quote character and no `c`. */
  predicate Plain(s: string, c: char) {
    forall k :: 0 <= k < |s| ==> !IsQuoteChar(s[k]) && s[k] != c
  }

  /** Outside quotes, a run with no quote character and no `c` is passed over. */
  lemma {:induction false} SkipPlain(text: string, c: char, a: nat, b: nat)
    requires a <= b <= |text| && forall k :: a <= k < b ==> !IsQuoteChar(text[k]) && text[k] != c
    ensures UnquotedIndexFrom(text, [c], a, None) == UnquotedIndexFrom(text, [c], b, None)
    decreases b - a
  {
    if a < b {
      SkipChar(text, c, a, None, None);
      SkipPlain(text, c, a + 1, b);
    }
  }

  /** Inside a region quoted by `q`, a run without `q` is passed over. */
  lemma {:induction false} SkipQuoted(text: string, c: char, q: char, a: nat, b: nat)
    requires a <= b <= |text| && forall k :: a <= k < b ==> text[k] != q
    ensures UnquotedIndexFrom(text, [c], a, Some(q)) == UnquotedIndexFrom(text, [c], b, Some(q))
    decreases b - a
  {
    if a < b {
      SkipChar(text, c, a, Some(q), Some(q));
      SkipQuoted(text, c, q, a + 1, b);
    }
  }

  /** Plain text `w` at `b` is passed over. */
  lemma SkipPlainText(text: string, c: char, b: nat, w: string)
    requires b + |w| <= |text| && text[b..b + |w|] == w && Plain(w, c)
    ensures UnquotedIndexFrom(text, [c], b, None) == UnquotedIndexFrom(text, [c], b + |w|, None)
  {
    forall k | b <= k < b + |w| ensures !IsQuoteChar(text[k]) && text[k] != c {
      assert text[k] == text[b..b + |w|][k - b];
    }
    SkipPlain(text, c, b, b + |w|);
  }

  /** `q` is a value in double quotes, with no double quote inside. */
  predicate DoubleQuoted(q: string) {
    |q| >= 2 && q[0] == '"' && q[|q| - 1] == '"' && forall k :: 0 < k < |q| - 1 ==> q[k] != '"'
  }

  /** A double-quoted value at `p`, whose opening quote is not escaped, is passed
      over whatever it holds. */
  lemma SkipQuotedValue(text: string, c: char, p: nat, q: string)
    requires p + |q| <= |text| && text[p..p + |q|] == q && DoubleQuoted(q)
    requires !(p > 0 && text[p - 1] == '\\') && c != '"'
    ensures UnquotedIndexFrom(text, [c], p, None) == UnquotedIndexFrom(text, [c], p + |q|, None)
  {
    var p2 := p + |q| - 1;
    assert text[p] == q[0];
    SkipChar(text, c, p, None, Some('"'));
    forall k | p + 1 <= k < p2 ensures text[k] != '"' {
      assert text[k] == q[k - p];
    }
    SkipQuoted(text, c, '"', p + 1, p2);
    assert text[p2] == q[|q| - 1];
    SkipChar(text, c, p2, Some('"'), None);
  }

  /** Outside quotes, the scan stops at an unquoted `c`. */
  lemma StopAt(text: string, c: char, p: nat)
    requires p < |text| && text[p] == c && !IsQuoteChar(c)
    ensures UnquotedIndexFrom(text, [c], p, None) == Some(p)
  {
    assert text[p..p + 1] == [c];
  }

  /** After plain text `w`, the first unquoted `c` is the one that follows it. */
  lemma PlainThenChar(text: string, c: char, b: nat, w: string)
    requires b + |w| < |text| && text[b..b + |w| + 1] == w + [c] && Plain(w, c) && !IsQuoteChar(c)
    ensures UnquotedIndex(text, [c], b) == Some(b + |w|)
  {
    assert text[b..b + |w|] == text[b..b + |w| + 1][..|w|];
    SkipPlainText(text, c, b, w);
    assert text[b + |w|] == text[b..b + |w| + 1][|w|];
    StopAt(text, c, b + |w|);
  }

  lemma ConcatPieces(t: string, w: string, q: string, w2: string, c: char)
    requires t == w + q + w2 + [c]
    ensures t[0..|w|] == w && t[|w|..|w| + |q|] == q && t[|w| + |q|..|w| + |q| + |w2|] == w2
    ensures t[|t| - 1] == c && (w != "" ==> t[|w| - 1] == w[|w| - 1])
  {
    assert t[0..|w|] == w;
    assert t[|w|..|w| + |q|] == q;
    assert t[|w| + |q|..|w| + |q| + |w2|] == w2;
  }

  /** The pieces of `w + q + w2 + [c]`, found at `b` in `text`. */
  lemma Pieces(text: string, b: nat, w: string, q: string, w2: string, c: char)
    requires b + |w| + |q| + |w2| < |text| && text[b..b + |w| + |q| + |w2| + 1] == w + q + w2 + [c]
    ensures text[b..b + |w|] == w && text[b + |w|..b + |w| + |q|] == q
    ensures text[b + |w| + |q|..b + |w| + |q| + |w2|] == w2 && text[b + |w| + |q| + |w2|] == c
    ensures w != "" ==> text[b + |w| - 1] == w[|w| - 1]
  {
    var t := text[b..b + |w| + |q| + |w2| + 1];
    ConcatPieces(t, w, q, w2, c);
    SliceOfSlice(text, b, b + |t|, 0, |w|);
    SliceOfSlice(text, b, b + |t|, |w|, |w| + |q|);
    SliceOfSlice(text, b, b + |t|, |w| + |q|, |w| + |q| + |w2|);
    assert text[b + |w| + |q| + |w2|] == t[|t| - 1];
    if w != "" { assert text[b + |w| - 1] == t[|w| - 1]; }
  }

  /** The scan passes over plain `w`, quoted `q` and plain `w2`, lying in turn at `b`,
      and stops at the `c` after them. */
  lemma QuotedChain(text: string, c: char, b: nat, w: string, q: string, w2: string)
    requires b + |w| + |q| + |w2| < |text| && w != ""
    requires text[b..b + |w|] == w && text[b + |w|..b + |w| + |q|] == q
    requires text[b + |w| + |q|..b + |w| + |q| + |w2|] == w2 && text[b + |w| + |q| + |w2|] == c
    requires text[b + |w| - 1] == w[|w| - 1] && DoubleQuoted(q)
    requires w[|w| - 1] != '\\' && Plain(w, c) && Plain(w2, c) && !IsQuoteChar(c)
    ensures UnquotedIndexFrom(text, [c], b, None) == Some(b + |w| + |q| + |w2|)
  {
    var p := b + |w|;
    SkipPlainText(text, c, b, w);
    SkipQuotedValue(text, c, p, q);
    SkipPlainText(text, c, p + |q|, w2);
    StopAt(text, c, p + |q| + |w2|);
  }

  /** After plain text `w`, a value `v` in double quotes and plain text `w2`, the first
      unquoted `c` is the one that follows: a `c` inside the quotes does not count. */
  lemma QuotedThenChar(text: string, c: char, b: nat, w: string, v: string, w2: string)
    requires b + |w| + |v| + |w2| + 2 < |text|
    requires text[b..b + |w| + |v| + |w2| + 3] == w + "\"" + v + "\"" + w2 + [c]
    requires w != "" && w[|w| - 1] != '\\' && Plain(w, c) && Plain(w2, c) && '"' !in v && !IsQuoteChar(c)
    ensures UnquotedIndex(text, [c], b) == Some(b + |w| + |v| + |w2| + 2)
  {
    var q := "\"" + v + "\"";
    assert w + "\"" + v + "\"" + w2 + [c] == w + q + w2 + [c];
    Pieces(text, b, w, q, w2, c);
    assert DoubleQuoted(q) by {
      forall k | 0 < k < |q| - 1 ensures q[k] != '"' { assert q[k] == v[k - 1]; }
    }
    QuotedChain(text, c, b, w, q, w2);
  }
}
