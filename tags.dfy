/** The innermost-first tag locator (`find_tag`). */
module Tags {
  import opened Errors
  import opened Text
  import opened Scanner

  /** The tag names the locator is used with: non-empty and not starting with `/`, so
      that an opening form and a closing form are told apart by the character after `<`. */
  predicate ValidTagName(tag: string) { |tag| > 0 && tag[0] != '/' }

  predicate OpenAt(text: string, tag: string, k: int) { StartsAt(text, k, "<" + tag) }

  predicate CloseAt(text: string, tag: string, k: int) { StartsAt(text, k, "</" + tag) }

  /** What the pattern `</?tag` matches at `k`. */
  predicate FormAt(text: string, tag: string, k: int) { OpenAt(text, tag, k) || CloseAt(text, tag, k) }

  /** The leftmost match of `</?tag` at or after `from`. */
  function NextForm(text: string, tag: string, from: nat): (r: Option<nat>)
    ensures r.Some? ==> from <= r.value < |text|
    decreases |text| - from
  {
    if from >= |text| then None
    else if FormAt(text, tag, from) then Some(from)
    else NextForm(text, tag, from + 1)
  }

  /** `NextForm` is the least position at or after `from` where a form begins. */
  lemma {:induction false} NextFormCorrect(text: string, tag: string, from: nat)
    ensures var r := NextForm(text, tag, from);
      && (r.Some? ==> FormAt(text, tag, r.value) && forall j :: from <= j < r.value ==> !FormAt(text, tag, j))
      && (r.None? ==> forall j :: from <= j ==> !FormAt(text, tag, j))
    decreases |text| - from
  {
    if from < |text| && !FormAt(text, tag, from) { NextFormCorrect(text, tag, from + 1); }
  }

  lemma NextFormAt(text: string, tag: string, from: nat)
    requires ValidTagName(tag)
    ensures var r := NextForm(text, tag, from); r.Some? ==> r.value + 1 < |text|
  {
    NextFormCorrect(text, tag, from);
  }

  /** The four offsets of a located tag: start of `<tag`, just after its `>`, start of
      `</tag`, just after its `>`. */
  datatype Location = Location(start: nat, htmlStart: nat, htmlEnd: nat, end: nat)

  /** What one turn of the loop sees from `htmlStart`: no form at all, a form with no
      unquoted `>`, or an opening or closing form at `p` whose `>` is at `g`. */
  datatype Found = NoForm | NoGt | OpenForm(p: nat, g: nat) | CloseForm(p: nat, g: nat)

  /** One turn's two searches: the pattern `</?tag` from `htmlStart`, then the first
      unquoted `>` from where it matched. */
  function ScanAt(tag: string, text: string, htmlStart: nat): (f: Found)
    requires ValidTagName(tag)
    ensures f.OpenForm? || f.CloseForm? ==> htmlStart <= f.p <= f.g < |text|
  {
    NextFormAt(text, tag, htmlStart);
    match NextForm(text, tag, htmlStart)
    case None => NoForm
    case Some(p) =>
      GtFound(text, p);
      match UnquotedIndex(text, ">", p)
      case None => NoGt
      case Some(g) => if text[p + 1] == '/' then CloseForm(p, g) else OpenForm(p, g)
  }

  /** The loop of the source from the state (`start`, `htmlStart`). */
  function FindTagFrom(tag: string, text: string, start: nat, htmlStart: nat): Result<Option<Location>>
    requires ValidTagName(tag) && htmlStart <= |text|
    decreases |text| - htmlStart
  {
    match ScanAt(tag, text, htmlStart)
    case NoForm => if htmlStart == 0 then Ok(None) else Err(OpenNoClose)
    case NoGt => Err(MissingGt)
    case CloseForm(p, g) =>
      if htmlStart == 0 then Err(CloseNoOpen) else Ok(Some(Location(start, htmlStart, p, g + 1)))
    case OpenForm(p, g) => FindTagFrom(tag, text, p, g + 1)
  }

  /** `find_tag(tag, text)`: the innermost first tag, None when there is none, or an error. */
  function FindTagOf(tag: string, text: string): Result<Option<Location>>
    requires ValidTagName(tag)
  {
    FindTagFrom(tag, text, 0, 0)
  }

  /** What a successful location guarantees. */
  predicate TagShape(text: string, tag: string, loc: Location) {
    && loc.start < loc.htmlStart <= loc.htmlEnd < loc.end <= |text|
    && OpenAt(text, tag, loc.start) && CloseAt(text, tag, loc.htmlEnd)
    && text[loc.htmlStart - 1] == '>' && text[loc.end - 1] == '>'
    && UnquotedIndex(text, ">", loc.start) == Some(loc.htmlStart - 1)
    && UnquotedIndex(text, ">", loc.htmlEnd) == Some(loc.end - 1)
    && forall k :: loc.htmlStart <= k < loc.htmlEnd ==> !FormAt(text, tag, k)
  }

  /** One turn's searches, as the source makes them: the pattern, then the first unquoted `>`. */
  method Scan(tag: string, text: string, htmlStart: nat) returns (f: Found)
    requires ValidTagName(tag)
    ensures f == ScanAt(tag, text, htmlStart)
  {
    var m := NextForm(text, tag, htmlStart);
    if m.None? {
      return NoForm;
    }
    NextFormAt(text, tag, htmlStart);
    var gt := IndexIgnoreQuoted(text, ">", m.value);
    if gt.None? {
      return NoGt;
    }
    if text[m.value + 1] == '/' {
      return CloseForm(m.value, gt.value);
    }
    return OpenForm(m.value, gt.value);
  }

  /** The source's `while True` loop over `start` / `html_start` / `html_end` / `end`. */
  method FindTag(tag: string, text: string) returns (r: Result<Option<Location>>)
    requires ValidTagName(tag)
    ensures r == FindTagOf(tag, text)
  {
    var start, htmlStart, htmlEnd, end := 0, 0, 0, 0;
    while true
      invariant htmlStart <= |text|
      invariant FindTagFrom(tag, text, start, htmlStart) == FindTagOf(tag, text)
      decreases |text| - htmlStart
    {
      var f := Scan(tag, text, htmlStart);
      Turn(tag, text, start, htmlStart);
      match f
      case NoForm =>
        if htmlStart == 0 { return Ok(None); } else { return Err(OpenNoClose); }
      case NoGt =>
        return Err(MissingGt);
      case CloseForm(p, g) =>
        if htmlStart == 0 {
          return Err(CloseNoOpen);
        }
        htmlEnd, end := p, g + 1;
        break;
      case OpenForm(p, g) =>
        start, htmlStart := p, g + 1;
    }
    return Ok(Some(Location(start, htmlStart, htmlEnd, end)));
  }

  /** One turn of the loop, by what the turn sees. */
  lemma Turn(tag: string, text: string, start: nat, htmlStart: nat)
    requires ValidTagName(tag) && htmlStart <= |text|
    ensures var f := ScanAt(tag, text, htmlStart); var r := FindTagFrom(tag, text, start, htmlStart);
      && (f.NoForm? ==> r == if htmlStart == 0 then Ok(None) else Err(OpenNoClose))
      && (f.NoGt? ==> r == Err(MissingGt))
      && (f.CloseForm? ==> r == if htmlStart == 0 then Err(CloseNoOpen) else Ok(Some(Location(start, htmlStart, f.p, f.g + 1))))
      && (f.OpenForm? ==> f.g + 1 <= |text| && r == FindTagFrom(tag, text, f.p, f.g + 1))
  {
  }

  lemma FindTagFromNotNone(tag: string, text: string, start: nat, htmlStart: nat)
    requires ValidTagName(tag) && 0 < htmlStart <= |text|
    ensures FindTagFrom(tag, text, start, htmlStart) != Ok(None)
  {
    FindTagFromWalk(tag, text, start, htmlStart);
    WalkNotNone(ScanOf(tag, text), |text|, start, htmlStart);
  }

  /** The locator finds nothing exactly when neither `<tag` nor `</tag` occurs. */
  lemma FindTagNoneIff(tag: string, text: string)
    requires ValidTagName(tag)
    ensures FindTagOf(tag, text) == Ok(None) <==> forall k :: !FormAt(text, tag, k)
  {
    FindTagFromWalk(tag, text, 0, 0);
    WalkNoneIff(ScanOf(tag, text), |text|);
    NoFormScanned(tag, text);
  }

  lemma NoFormScanned(tag: string, text: string)
    requires ValidTagName(tag)
    ensures ScanOf(tag, text)(0).NoForm? <==> forall k :: !FormAt(text, tag, k)
  {
    ScanFacts(tag, text, 0);
    var f := ScanAt(tag, text, 0);
    if f.NoGt? {
      assert FormAt(text, tag, NextForm(text, tag, 0).value);
    } else if f.OpenForm? || f.CloseForm? {
      assert FormAt(text, tag, f.p);
    }
  }

  lemma FindTagFromShape(tag: string, text: string, start: nat, htmlStart: nat, loc: Location)
    requires ValidTagName(tag) && htmlStart <= |text|
    requires htmlStart > 0 ==> OpenedAt(text, tag, start, htmlStart)
    requires FindTagFrom(tag, text, start, htmlStart) == Ok(Some(loc))
    ensures TagShape(text, tag, loc)
  {
    FindTagFromWalk(tag, text, start, htmlStart);
    var sc := ScanOf(tag, text);
    var q := WalkClose(sc, |text|, start, htmlStart, loc);
    ScannedShape(tag, text, start, htmlStart, loc, q);
  }

  /** `<tag` at `s` whose first unquoted `>` is at `h - 1`. */
  predicate OpenedAt(text: string, tag: string, s: nat, h: nat) {
    s < h <= |text| && OpenAt(text, tag, s) && text[h - 1] == '>' && UnquotedIndex(text, ">", s) == Some(h - 1)
  }

  /** `</tag` at `p` whose first unquoted `>` is at `e - 1`, with no form of the tag from `h` to `p`. */
  predicate ClosedAt(text: string, tag: string, h: nat, p: nat, e: nat) {
    && h <= p < e <= |text| && CloseAt(text, tag, p) && text[e - 1] == '>'
    && UnquotedIndex(text, ">", p) == Some(e - 1)
    && forall k :: h <= k < p ==> !FormAt(text, tag, k)
  }

  /** The shape of a location, from the turns of the scan it was assembled from. */
  lemma ScannedShape(tag: string, text: string, start: nat, htmlStart: nat, loc: Location, q: nat)
    requires ValidTagName(tag) && htmlStart <= |text|
    requires htmlStart > 0 ==> OpenedAt(text, tag, start, htmlStart)
    requires var sc := ScanOf(tag, text);
      && 0 < loc.htmlStart <= |text|
      && sc(loc.htmlStart).CloseForm? && sc(loc.htmlStart).p == loc.htmlEnd && sc(loc.htmlStart).g + 1 == loc.end
      && ((loc.start == start && loc.htmlStart == htmlStart) || (q <= |text| && OpenedFrom(sc(q), loc.start, loc.htmlStart)))
    ensures TagShape(text, tag, loc)
  {
    ClosedFromScan(tag, text, loc.htmlStart, loc.htmlEnd, loc.end);
    if !(loc.start == start && loc.htmlStart == htmlStart) {
      OpenedFromScan(tag, text, q, loc.start, loc.htmlStart);
    }
    CloseShape(tag, text, loc);
  }

  lemma OpenedFromScan(tag: string, text: string, q: nat, s: nat, h: nat)
    requires ValidTagName(tag) && OpenedFrom(ScanOf(tag, text)(q), s, h)
    ensures OpenedAt(text, tag, s, h)
  {
    ScanFacts(tag, text, q);
  }

  lemma ClosedFromScan(tag: string, text: string, h: nat, p: nat, e: nat)
    requires ValidTagName(tag)
    requires var f := ScanOf(tag, text)(h); f.CloseForm? && f.p == p && f.g + 1 == e
    ensures ClosedAt(text, tag, h, p, e)
  {
    ScanFacts(tag, text, h);
  }

  /** The shape facts put together. */
  lemma CloseShape(tag: string, text: string, loc: Location)
    requires OpenedAt(text, tag, loc.start, loc.htmlStart)
    requires ClosedAt(text, tag, loc.htmlStart, loc.htmlEnd, loc.end)
    ensures TagShape(text, tag, loc)
  {
  }

  /** On success the locator returns an innermost tag pair:
      `start < htmlStart <= htmlEnd < end <= |text|`, `<tag` at `start` and `</tag` at
      `htmlEnd`, each ended by its first unquoted `>`, and no form of the tag in between. */
  lemma FindTagShape(tag: string, text: string)
    requires ValidTagName(tag)
    ensures var r := FindTagOf(tag, text);
      r.Ok? && r.value.Some? ==> TagShape(text, tag, r.value.value)
  {
    var r := FindTagOf(tag, text);
    if r.Ok? && r.value.Some? { FindTagFromShape(tag, text, 0, 0, r.value.value); }
  }

  /** A closing form found before any opening one is "closing tag with no matching open". */
  lemma FindTagCloseNoOpenIff(tag: string, text: string)
    requires ValidTagName(tag)
    ensures FindTagOf(tag, text) == Err(CloseNoOpen) <==>
      exists p :: NextForm(text, tag, 0) == Some(p) && CloseAt(text, tag, p)
        && UnquotedIndex(text, ">", p).Some?
  {
    FindTagFromWalk(tag, text, 0, 0);
    WalkCloseNoOpenIff(ScanOf(tag, text), |text|);
    CloseFirstScanned(tag, text);
  }

  lemma CloseFirstScanned(tag: string, text: string)
    requires ValidTagName(tag)
    ensures ScanOf(tag, text)(0).CloseForm? <==>
      exists p :: NextForm(text, tag, 0) == Some(p) && CloseAt(text, tag, p)
        && UnquotedIndex(text, ">", p).Some?
  {
    ScanFacts(tag, text, 0);
    var f := ScanAt(tag, text, 0);
    if f.CloseForm? {
      assert NextForm(text, tag, 0) == Some(f.p) && CloseAt(text, tag, f.p);
    }
  }

  lemma FindTagFromErrors(tag: string, text: string, start: nat, htmlStart: nat)
    requires ValidTagName(tag) && htmlStart <= |text|
    requires htmlStart > 0 ==> OpenAt(text, tag, start) && UnquotedIndex(text, ">", start) == Some(htmlStart - 1)
    ensures FindTagFrom(tag, text, start, htmlStart) == Err(MissingGt) ==>
      exists k :: FormAt(text, tag, k) && UnquotedIndex(text, ">", k).None?
    ensures FindTagFrom(tag, text, start, htmlStart) == Err(OpenNoClose) ==>
      exists k, g :: OpenAt(text, tag, k) && UnquotedIndex(text, ">", k) == Some(g)
        && forall j :: g < j ==> !FormAt(text, tag, j)
  {
    FindTagFromWalk(tag, text, start, htmlStart);
    var r := FindTagFrom(tag, text, start, htmlStart);
    if r == Err(MissingGt) {
      var q := WalkMissingGt(ScanOf(tag, text), |text|, start, htmlStart);
      MissingGtScanned(tag, text, q);
    } else if r == Err(OpenNoClose) {
      var q, k := WalkOpenNoClose(ScanOf(tag, text), |text|, start, htmlStart);
      OpenNoCloseScanned(tag, text, start, htmlStart, q, k);
    }
  }

  lemma MissingGtScanned(tag: string, text: string, q: nat)
    requires ValidTagName(tag) && ScanOf(tag, text)(q).NoGt?
    ensures exists k :: FormAt(text, tag, k) && UnquotedIndex(text, ">", k).None?
  {
    ScanFacts(tag, text, q);
    var k := NextForm(text, tag, q).value;
    assert FormAt(text, tag, k) && UnquotedIndex(text, ">", k).None?;
  }

  lemma OpenNoCloseScanned(tag: string, text: string, start: nat, htmlStart: nat, q: nat, k: nat)
    requires ValidTagName(tag)
    requires htmlStart > 0 ==> OpenAt(text, tag, start) && UnquotedIndex(text, ">", start) == Some(htmlStart - 1)
    requires var sc := ScanOf(tag, text);
      && 0 < q && sc(q).NoForm?
      && (q == htmlStart || (sc(k).OpenForm? && sc(k).g + 1 == q))
    ensures exists k, g ::
      OpenAt(text, tag, k) && UnquotedIndex(text, ">", k) == Some(g) && forall j :: g < j ==> !FormAt(text, tag, j)
  {
    ScanFacts(tag, text, q);
    if q == htmlStart {
      assert OpenAt(text, tag, start) && UnquotedIndex(text, ">", start) == Some(q - 1)
        && forall j :: q - 1 < j ==> !FormAt(text, tag, j);
    } else {
      ScanFacts(tag, text, k);
      var p := ScanAt(tag, text, k).p;
      assert OpenAt(text, tag, p) && UnquotedIndex(text, ">", p) == Some(q - 1)
        && forall j :: q - 1 < j ==> !FormAt(text, tag, j);
    }
  }

  /** "missing `>`" means some form found has no unquoted `>` after it; "opening tag
      with no matching close" means the text runs out of forms after an opening tag. */
  lemma FindTagErrors(tag: string, text: string)
    requires ValidTagName(tag)
    ensures FindTagOf(tag, text) == Err(MissingGt) ==>
      exists k :: FormAt(text, tag, k) && UnquotedIndex(text, ">", k).None?
    ensures FindTagOf(tag, text) == Err(OpenNoClose) ==>
      exists k, g :: OpenAt(text, tag, k) && UnquotedIndex(text, ">", k) == Some(g)
        && forall j :: g < j ==> !FormAt(text, tag, j)
  {
    FindTagFromErrors(tag, text, 0, 0);
  }

  /** Conversely: when the first form has no unquoted `>`, the locator reports the
      missing `>`. */
  lemma FindTagFirstNoGt(tag: string, text: string, p: nat)
    requires ValidTagName(tag) && FormAt(text, tag, p) && UnquotedIndex(text, ">", p).None?
    requires forall j :: 0 <= j < p ==> !FormAt(text, tag, j)
    ensures FindTagOf(tag, text) == Err(MissingGt)
  {
    FirstForm(tag, text, 0, p);
    Turn(tag, text, 0, 0);
  }

  /** Conversely: when the only form is an opening tag with its `>`, the locator
      reports it as never closed. */
  lemma FindTagLoneOpen(tag: string, text: string, k: nat, g: nat)
    requires ValidTagName(tag) && OpenAt(text, tag, k) && UnquotedIndex(text, ">", k) == Some(g)
    requires forall j :: FormAt(text, tag, j) ==> j == k
    ensures FindTagOf(tag, text) == Err(OpenNoClose)
  {
    LoneOpenScans(tag, text, k, g);
    Turn(tag, text, 0, 0);
    Turn(tag, text, k, g + 1);
  }

  /** What the two turns see for a lone opening tag: the tag itself, then nothing. */
  lemma LoneOpenScans(tag: string, text: string, k: nat, g: nat)
    requires ValidTagName(tag) && OpenAt(text, tag, k) && UnquotedIndex(text, ">", k) == Some(g)
    requires forall j :: FormAt(text, tag, j) ==> j == k
    ensures ScanAt(tag, text, 0) == OpenForm(k, g) && g + 1 <= |text| && ScanAt(tag, text, g + 1) == NoForm
  {
    FirstForm(tag, text, 0, k);
    assert text[k + 1] == ("<" + tag)[1] == tag[0];
    NextFormCorrect(text, tag, g + 1);
  }

  /** A form at `p` with none between `from` and it is the one the pattern search finds. */
  lemma FirstForm(tag: string, text: string, from: nat, p: nat)
    requires from <= p && FormAt(text, tag, p) && forall j :: from <= j < p ==> !FormAt(text, tag, j)
    ensures NextForm(text, tag, from) == Some(p)
  {
    NextFormCorrect(text, tag, from);
  }

  /** The locator reports nothing but these outcomes. */
  lemma FindTagFromOutcomes(tag: string, text: string, start: nat, htmlStart: nat)
    requires ValidTagName(tag) && htmlStart <= |text|
    ensures var r := FindTagFrom(tag, text, start, htmlStart);
      r.Err? ==> r.error in {OpenNoClose, CloseNoOpen, MissingGt}
  {
    FindTagFromWalk(tag, text, start, htmlStart);
    WalkOutcomes(ScanOf(tag, text), |text|, start, htmlStart);
  }

  function ScanOf(tag: string, text: string): nat -> Found
    requires ValidTagName(tag)
  {
    (h: nat) => ScanAt(tag, text, h)
  }

  /** What each outcome of one turn says about the text. */
  lemma ScanFacts(tag: string, text: string, h: nat)
    requires ValidTagName(tag)
    ensures var f := ScanAt(tag, text, h);
      && (f.NoForm? ==> forall j :: h <= j ==> !FormAt(text, tag, j))
      && (f.NoGt? ==> NextForm(text, tag, h).Some? && FormAt(text, tag, NextForm(text, tag, h).value)
                      && UnquotedIndex(text, ">", NextForm(text, tag, h).value).None?)
      && (f.OpenForm? ==> h <= f.p < f.g < |text| && text[f.g] == '>' && NextForm(text, tag, h) == Some(f.p)
                          && OpenAt(text, tag, f.p) && !CloseAt(text, tag, f.p)
                          && UnquotedIndex(text, ">", f.p) == Some(f.g))
      && (f.CloseForm? ==> h <= f.p < f.g < |text| && text[f.g] == '>' && NextForm(text, tag, h) == Some(f.p)
                           && CloseAt(text, tag, f.p) && UnquotedIndex(text, ">", f.p) == Some(f.g)
                           && forall j :: h <= j < f.p ==> !FormAt(text, tag, j))
  {
    NextFormCorrect(text, tag, h);
    NextFormAt(text, tag, h);
    match NextForm(text, tag, h)
    case None =>
    case Some(p) =>
      GtFound(text, p);
      if text[p + 1] == '/' {
        assert !OpenAt(text, tag, p) by { assert ("<" + tag)[1] == tag[0]; }
      } else {
        assert !CloseAt(text, tag, p) by { assert ("</" + tag)[1] == '/'; }
      }
  }

  /** A scan that only ever moves forward, up to `n`. */
  ghost predicate Advances(sc: nat -> Found, n: nat) {
    forall h: nat :: h <= n && sc(h).OpenForm? ==> h <= sc(h).p <= sc(h).g < n
  }

  lemma ScanAdvances(tag: string, text: string)
    requires ValidTagName(tag)
    ensures Advances(ScanOf(tag, text), |text|)
  {
    forall h: nat | h <= |text| && ScanOf(tag, text)(h).OpenForm?
      ensures h <= ScanOf(tag, text)(h).p <= ScanOf(tag, text)(h).g < |text|
    {
      ScanFacts(tag, text, h);
    }
  }

  /** The locator's loop over an abstract scan. */
  function Walk(sc: nat -> Found, n: nat, start: nat, htmlStart: nat): Result<Option<Location>>
    requires htmlStart <= n && Advances(sc, n)
    decreases n - htmlStart
  {
    match sc(htmlStart)
    case NoForm => if htmlStart == 0 then Ok(None) else Err(OpenNoClose)
    case NoGt => Err(MissingGt)
    case CloseForm(p, g) => if htmlStart == 0 then Err(CloseNoOpen) else Ok(Some(Location(start, htmlStart, p, g + 1)))
    case OpenForm(p, g) => Walk(sc, n, p, g + 1)
  }

  lemma {:induction false} FindTagFromWalk(tag: string, text: string, start: nat, htmlStart: nat)
    requires ValidTagName(tag) && htmlStart <= |text|
    ensures Advances(ScanOf(tag, text), |text|)
    ensures FindTagFrom(tag, text, start, htmlStart) == Walk(ScanOf(tag, text), |text|, start, htmlStart)
    decreases |text| - htmlStart
  {
    ScanAdvances(tag, text);
    TurnAgrees(tag, text, start, htmlStart);
    var f := ScanAt(tag, text, htmlStart);
    if f.OpenForm? { FindTagFromWalk(tag, text, f.p, f.g + 1); }
  }

  /** One turn of the loop and of the walk over its scan agree: both stop with the same
      result, or both go on from the same opening form. */
  lemma TurnAgrees(tag: string, text: string, start: nat, htmlStart: nat)
    requires ValidTagName(tag) && htmlStart <= |text| && Advances(ScanOf(tag, text), |text|)
    ensures var f := ScanAt(tag, text, htmlStart);
      && (f.OpenForm? ==>
            && f.g + 1 <= |text|
            && FindTagFrom(tag, text, start, htmlStart) == FindTagFrom(tag, text, f.p, f.g + 1)
            && Walk(ScanOf(tag, text), |text|, start, htmlStart) == Walk(ScanOf(tag, text), |text|, f.p, f.g + 1))
      && (!f.OpenForm? ==> FindTagFrom(tag, text, start, htmlStart) == Walk(ScanOf(tag, text), |text|, start, htmlStart))
  {
    var sc := ScanOf(tag, text);
    assert sc(htmlStart) == ScanAt(tag, text, htmlStart);
    Turn(tag, text, start, htmlStart);
    WalkTurn(sc, |text|, start, htmlStart);
  }

  /** One turn of the walk, by what the turn sees. */
  lemma WalkTurn(sc: nat -> Found, n: nat, start: nat, htmlStart: nat)
    requires htmlStart <= n && Advances(sc, n)
    ensures var f := sc(htmlStart); var r := Walk(sc, n, start, htmlStart);
      && (f.NoForm? ==> r == if htmlStart == 0 then Ok(None) else Err(OpenNoClose))
      && (f.NoGt? ==> r == Err(MissingGt))
      && (f.CloseForm? ==> r == if htmlStart == 0 then Err(CloseNoOpen) else Ok(Some(Location(start, htmlStart, f.p, f.g + 1))))
      && (f.OpenForm? ==> f.g + 1 <= n && r == Walk(sc, n, f.p, f.g + 1))
  {
  }

  /** `f` is an opening form starting at `s` whose `>` ends just before `h`. */
  predicate OpenedFrom(f: Found, s: nat, h: nat) { f.OpenForm? && f.p == s && f.g + 1 == h }

  /** A located tag ends at a closing form seen from its `htmlStart`, and opens either
      at the state the walk started from or at an opening form the walk passed. */
  lemma {:induction false} WalkClose(sc: nat -> Found, n: nat, start: nat, htmlStart: nat, loc: Location)
    returns (q: nat)
    requires htmlStart <= n && Advances(sc, n)
    requires Walk(sc, n, start, htmlStart) == Ok(Some(loc))
    ensures 0 < loc.htmlStart <= n
    ensures sc(loc.htmlStart).CloseForm? && sc(loc.htmlStart).p == loc.htmlEnd && sc(loc.htmlStart).g + 1 == loc.end
    ensures (loc.start == start && loc.htmlStart == htmlStart) || (q <= n && OpenedFrom(sc(q), loc.start, loc.htmlStart))
    decreases n - htmlStart
  {
    q := 0;
    match sc(htmlStart)
    case NoForm =>
    case NoGt =>
    case CloseForm(p, g) =>
    case OpenForm(p, g) =>
      q := WalkClose(sc, n, p, g + 1, loc);
      if loc.start == p && loc.htmlStart == g + 1 {
        q := htmlStart;
      }
  }

  /** "missing `>`" comes from a turn that found a form with no `>`. */
  lemma {:induction false} WalkMissingGt(sc: nat -> Found, n: nat, start: nat, htmlStart: nat) returns (q: nat)
    requires htmlStart <= n && Advances(sc, n)
    requires Walk(sc, n, start, htmlStart) == Err(MissingGt)
    ensures q <= n && sc(q).NoGt?
    decreases n - htmlStart
  {
    q := 0;
    match sc(htmlStart)
    case NoForm =>
    case NoGt => q := htmlStart;
    case CloseForm(p, g) =>
    case OpenForm(p, g) => q := WalkMissingGt(sc, n, p, g + 1);
  }

  /** "opening tag with no matching close" comes from a turn at `q > 0` that found no
      form, where `q` is the walk's first state or just after an opening form at `k`. */
  lemma {:induction false} WalkOpenNoClose(sc: nat -> Found, n: nat, start: nat, htmlStart: nat) returns (q: nat, k: nat)
    requires htmlStart <= n && Advances(sc, n)
    requires Walk(sc, n, start, htmlStart) == Err(OpenNoClose)
    ensures 0 < q <= n && sc(q).NoForm?
    ensures q == htmlStart || (k <= n && sc(k).OpenForm? && sc(k).g + 1 == q)
    decreases n - htmlStart
  {
    q, k := 0, 0;
    match sc(htmlStart)
    case NoForm => q := htmlStart;
    case NoGt =>
    case CloseForm(p, g) =>
    case OpenForm(p, g) =>
      q, k := WalkOpenNoClose(sc, n, p, g + 1);
      if q == g + 1 { k := htmlStart; }
  }

  /** From any state past the first, the walk never reports "nothing found". */
  lemma {:induction false} WalkNotNone(sc: nat -> Found, n: nat, start: nat, htmlStart: nat)
    requires 0 < htmlStart <= n && Advances(sc, n)
    ensures Walk(sc, n, start, htmlStart) != Ok(None)
    decreases n - htmlStart
  {
    match sc(htmlStart)
    case NoForm =>
    case NoGt =>
    case CloseForm(p, g) =>
    case OpenForm(p, g) => WalkNotNone(sc, n, p, g + 1);
  }

  /** From any state past the first, the walk never reports a close with no open. */
  lemma {:induction false} WalkNoCloseNoOpen(sc: nat -> Found, n: nat, start: nat, htmlStart: nat)
    requires 0 < htmlStart <= n && Advances(sc, n)
    ensures Walk(sc, n, start, htmlStart) != Err(CloseNoOpen)
    decreases n - htmlStart
  {
    match sc(htmlStart)
    case NoForm =>
    case NoGt =>
    case CloseForm(p, g) =>
    case OpenForm(p, g) => WalkNoCloseNoOpen(sc, n, p, g + 1);
  }

  lemma {:induction false} WalkOutcomes(sc: nat -> Found, n: nat, start: nat, htmlStart: nat)
    requires htmlStart <= n && Advances(sc, n)
    ensures var r := Walk(sc, n, start, htmlStart);
      r.Err? ==> r.error in {OpenNoClose, CloseNoOpen, MissingGt}
    decreases n - htmlStart
  {
    match sc(htmlStart)
    case NoForm =>
    case NoGt =>
    case CloseForm(p, g) =>
    case OpenForm(p, g) => WalkOutcomes(sc, n, p, g + 1);
  }

  /** From the first state, the walk reports "nothing found" exactly when the first turn sees no form. */
  lemma WalkNoneIff(sc: nat -> Found, n: nat)
    requires Advances(sc, n)
    ensures Walk(sc, n, 0, 0) == Ok(None) <==> sc(0).NoForm?
  {
    match sc(0)
    case NoForm =>
    case NoGt =>
    case CloseForm(p, g) =>
    case OpenForm(p, g) => WalkNotNone(sc, n, p, g + 1);
  }

  /** From the first state, the walk reports a close with no open exactly when the first turn
      sees a closing form. */
  lemma WalkCloseNoOpenIff(sc: nat -> Found, n: nat)
    requires Advances(sc, n)
    ensures Walk(sc, n, 0, 0) == Err(CloseNoOpen) <==> sc(0).CloseForm?
  {
    match sc(0)
    case NoForm =>
    case NoGt =>
    case CloseForm(p, g) =>
    case OpenForm(p, g) => WalkNoCloseNoOpen(sc, n, p, g + 1);
  }
}
