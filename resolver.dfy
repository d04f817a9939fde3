/** The field resolver (`process_template`): finds the `<--field …>` and
    `<--inner-html …>` void tags of a template, resolves each field, and splices the
    replacements into the template text. */
module Resolver {
  import opened Errors
  import opened Text
  import opened Attributes
  import opened Files

  const FieldLit := "<--field"
  const InnerLit := "<--inner-html"

  predicate IsBlank(c: char) { c == ' ' }

  /** `[^"\n\r]`: characters of a void-tag attribute value. */
  predicate IsValueChar(c: char) { c != '"' && c != '\n' && c != '\r' }

  /** One repetition of ` +[\w-]+ *= *"[^"\n\r]*?"` at `q`: where it ends. Every
      part is forced (a shorter run leaves a character the next part cannot take),
      so the regex engine's backtracking has nothing to choose. */
  function AttrEnd(text: string, q: nat): (r: Option<nat>)
    requires q <= |text|
    ensures r.Some? ==> q < r.value <= |text|
  {
    var a := Run(text, q, IsBlank);
    var b := Run(text, a, IsTagNameChar);
    if a == q || b == a then None
    else
      var c := Run(text, b, IsBlank);
      if c == |text| || text[c] != '=' then None
      else
        var d := Run(text, c + 1, IsBlank);
        if d == |text| || text[d] != '"' then None
        else
          var e := Run(text, d + 1, IsValueChar);
          if e == |text| || text[e] != '"' then None else Some(e + 1)
  }

  /** ` *\/?>` at `q`: where it ends. */
  function TailEnd(text: string, q: nat): (r: Option<nat>)
    requires q <= |text|
    ensures r.Some? ==> q < r.value <= |text| && text[r.value - 1] == '>'
  {
    var a := Run(text, q, IsBlank);
    if a < |text| && text[a] == '>' then Some(a + 1)
    else if a + 1 < |text| && text[a] == '/' && text[a + 1] == '>' then Some(a + 2)
    else None
  }

  /** `(?: +[\w-]+ *= *"[^"\n\r]*?")* *\/?>` at `q`. When a repetition matches, the
      tail cannot match at the same place (the repetition starts with blanks and a
      name character), so the greedy star never gives a repetition back. */
  function VoidTagEnd(text: string, q: nat): (r: Option<nat>)
    requires q <= |text|
    ensures r.Some? ==> q < r.value <= |text| && text[r.value - 1] == '>'
    decreases |text| - q
  {
    match AttrEnd(text, q)
    case Some(q') => VoidTagEnd(text, q')
    case None => TailEnd(text, q)
  }

  /** The end of the void tag `lit …>` starting at `i`, if one starts there. */
  function MatchAt(text: string, lit: string, i: nat): (r: Option<nat>)
    ensures r.Some? ==> i < r.value <= |text|
  {
    if StartsAt(text, i, lit) then VoidTagEnd(text, i + |lit|) else None
  }

  /** A void tag starts with its literal and ends with `>`. */
  lemma MatchAtShape(text: string, lit: string, i: nat)
    requires MatchAt(text, lit, i).Some?
    ensures StartsAt(text, i, lit) && i + |lit| < MatchAt(text, lit, i).value
    ensures text[MatchAt(text, lit, i).value - 1] == '>'
  {
  }

  /** For each offset of `text`, the end of the void tag starting there, if any. */
  function MatchTable(text: string, lit: string): (tbl: seq<Option<nat>>)
    ensures |tbl| == |text| && Ascending(tbl)
    ensures forall p :: 0 <= p < |text| ==> tbl[p] == MatchAt(text, lit, p)
  {
    seq(|text|, p requires 0 <= p < |text| => MatchAt(text, lit, p))
  }

  /** Every match in the table ends after it starts and within the text. */
  predicate Ascending(tbl: seq<Option<nat>>) {
    forall p :: 0 <= p < |tbl| && tbl[p].Some? ==> p < tbl[p].value <= |tbl|
  }

  /** `re.finditer` from `i` over a table of matches: matches are taken leftmost
      first, and the search goes on after the end of each match. */
  function FindAll(tbl: seq<Option<nat>>, i: nat): seq<(nat, nat)>
    requires Ascending(tbl)
    decreases |tbl| - i
  {
    if i >= |tbl| then []
    else if tbl[i].Some? then [(i, tbl[i].value)] + FindAll(tbl, tbl[i].value)
    else FindAll(tbl, i + 1)
  }

  /** All void tags `lit …>` of `text`, as `re.finditer` yields them. */
  function FindVoidTags(text: string, lit: string): seq<(nat, nat)> {
    FindAll(MatchTable(text, lit), 0)
  }

  /** Where the search for the `k`-th match resumed. */
  function Resume(i: nat, ms: seq<(nat, nat)>, k: nat): nat
    requires k <= |ms|
  {
    if k == 0 then i else ms[k - 1].1
  }

  /** Each match of `ms` is a match of the table where it starts, and starts at or
      after the point where the search for it resumed. */
  predicate AllMatch(tbl: seq<Option<nat>>, i: nat, ms: seq<(nat, nat)>) {
    forall k :: 0 <= k < |ms| ==> Resume(i, ms, k) <= ms[k].0 < |tbl| && tbl[ms[k].0] == Some(ms[k].1)
  }

  /** No match of the table starts in a gap the search skipped. */
  predicate GapsEmpty(tbl: seq<Option<nat>>, i: nat, ms: seq<(nat, nat)>) {
    forall k, p :: 0 <= k < |ms| && Resume(i, ms, k) <= p < ms[k].0 && p < |tbl| ==> tbl[p].None?
  }

  /** No match of the table starts after the last match of `ms`. */
  predicate TailEmpty(tbl: seq<Option<nat>>, i: nat, ms: seq<(nat, nat)>) {
    forall p :: Resume(i, ms, |ms|) <= p < |tbl| ==> tbl[p].None?
  }

  lemma {:induction false} FindAllMatch(tbl: seq<Option<nat>>, i: nat)
    requires Ascending(tbl)
    ensures AllMatch(tbl, i, FindAll(tbl, i))
    decreases |tbl| - i
  {
    var ms := FindAll(tbl, i);
    if i >= |tbl| {
    } else if tbl[i].Some? {
      var e := tbl[i].value;
      FindAllMatch(tbl, e);
      var rest := FindAll(tbl, e);
      assert ms == [(i, e)] + rest;
      assert forall k :: 0 < k < |ms| ==> ms[k] == rest[k - 1] && Resume(i, ms, k) == Resume(e, rest, k - 1);
    } else {
      FindAllMatch(tbl, i + 1);
      assert ms == FindAll(tbl, i + 1);
      assert forall k :: 0 <= k < |ms| ==> Resume(i, ms, k) <= Resume(i + 1, ms, k);
    }
  }

  lemma {:induction false} FindAllGaps(tbl: seq<Option<nat>>, i: nat)
    requires Ascending(tbl)
    ensures GapsEmpty(tbl, i, FindAll(tbl, i))
    decreases |tbl| - i
  {
    var ms := FindAll(tbl, i);
    if i >= |tbl| {
    } else if tbl[i].Some? {
      var e := tbl[i].value;
      FindAllGaps(tbl, e);
      var rest := FindAll(tbl, e);
      assert ms == [(i, e)] + rest;
      assert forall k :: 0 < k < |ms| ==> ms[k] == rest[k - 1] && Resume(i, ms, k) == Resume(e, rest, k - 1);
    } else {
      FindAllGaps(tbl, i + 1);
      assert ms == FindAll(tbl, i + 1);
      assert forall k :: 0 < k < |ms| ==> Resume(i, ms, k) == Resume(i + 1, ms, k);
    }
  }

  lemma {:induction false} FindAllTail(tbl: seq<Option<nat>>, i: nat)
    requires Ascending(tbl)
    ensures TailEmpty(tbl, i, FindAll(tbl, i))
    decreases |tbl| - i
  {
    var ms := FindAll(tbl, i);
    if i >= |tbl| {
    } else if tbl[i].Some? {
      var e := tbl[i].value;
      FindAllTail(tbl, e);
      var rest := FindAll(tbl, e);
      assert ms == [(i, e)] + rest;
      assert Resume(i, ms, |ms|) == Resume(e, rest, |rest|);
    } else {
      FindAllTail(tbl, i + 1);
    }
  }

  /** Each void tag found is a `lit …>` tag where it starts. */
  predicate AllTags(text: string, lit: string, ms: seq<(nat, nat)>) {
    forall k :: 0 <= k < |ms| ==> ms[k].0 < |text| && MatchAt(text, lit, ms[k].0) == Some(ms[k].1)
  }

  /** The void tags found are in order and do not overlap. */
  predicate InOrder(ms: seq<(nat, nat)>) {
    forall k :: 0 < k < |ms| ==> ms[k - 1].1 <= ms[k].0
  }

  /** No void tag starts in a gap the scan skipped, or after the last tag found. */
  predicate NoneSkipped(text: string, lit: string, ms: seq<(nat, nat)>) {
    (forall k, p :: 0 <= k < |ms| && Resume(0, ms, k) <= p < ms[k].0 ==> MatchAt(text, lit, p).None?) &&
    (forall p :: Resume(0, ms, |ms|) <= p < |text| ==> MatchAt(text, lit, p).None?)
  }

  /** The void tags found are exactly what a leftmost, non-overlapping scan finds. */
  lemma VoidTagsCorrect(text: string, lit: string)
    ensures AllTags(text, lit, FindVoidTags(text, lit))
    ensures InOrder(FindVoidTags(text, lit))
    ensures NoneSkipped(text, lit, FindVoidTags(text, lit))
  {
    VoidTagsMatch(text, lit);
    VoidTagsOrdered(text, lit);
    VoidTagsSkipped(text, lit);
  }

  lemma VoidTagsMatch(text: string, lit: string)
    ensures AllTags(text, lit, FindVoidTags(text, lit))
  {
    var tbl := MatchTable(text, lit);
    var ms := FindVoidTags(text, lit);
    FindAllMatch(tbl, 0);
    forall k | 0 <= k < |ms| ensures ms[k].0 < |text| && MatchAt(text, lit, ms[k].0) == Some(ms[k].1) {
      assert tbl[ms[k].0] == Some(ms[k].1);
    }
  }

  lemma VoidTagsOrdered(text: string, lit: string)
    ensures InOrder(FindVoidTags(text, lit))
  {
    var tbl := MatchTable(text, lit);
    var ms := FindVoidTags(text, lit);
    FindAllMatch(tbl, 0);
    forall k | 0 < k < |ms| ensures ms[k - 1].1 <= ms[k].0 {
      assert Resume(0, ms, k) == ms[k - 1].1;
    }
  }

  lemma VoidTagsSkipped(text: string, lit: string)
    ensures NoneSkipped(text, lit, FindVoidTags(text, lit))
  {
    var tbl := MatchTable(text, lit);
    var ms := FindVoidTags(text, lit);
    FindAllMatch(tbl, 0);
    FindAllGaps(tbl, 0);
    FindAllTail(tbl, 0);
    forall k, p | 0 <= k < |ms| && Resume(0, ms, k) <= p < ms[k].0 ensures MatchAt(text, lit, p).None? {
      assert ms[k].0 < |tbl|;
      assert tbl[p].None?;
    }
    forall p | Resume(0, ms, |ms|) <= p < |text| ensures MatchAt(text, lit, p).None? {
      assert tbl[p].None?;
    }
  }

  /** The ranges of the void tags lie within the text. */
  lemma VoidTagsInText(text: string, lit: string)
    ensures forall k :: 0 <= k < |FindVoidTags(text, lit)| ==>
      FindVoidTags(text, lit)[k].0 < FindVoidTags(text, lit)[k].1 <= |text|
  {
    FindAllMatch(MatchTable(text, lit), 0);
  }

  /** A replacement of `text[start..end]` by `repl`. */
  datatype Sub = Sub(start: nat, end: nat, repl: string)

  /** A resolved field tag: the field's name and its replacement. */
  datatype Resolved = Resolved(name: string, sub: Sub)

  /** What `get_field_value` returns for one field tag: the `--name`, and the value
      provided for it, else its `--default`; an error when it has no `--name`, or is
      neither provided nor defaulted. */
  function FieldValue(tag: string, provided: map<string, string>, relpath: string): Result<(string, string)> {
    var field :- ParseAttributesOf(tag);
    if "--name" !in field then Err(FieldMissingName(relpath))
    else
      var name := field["--name"];
      if name in provided then Ok((name, provided[name]))
      else if "--default" in field then Ok((name, field["--default"]))
      else Err(FieldRequired(relpath, name))
  }

  /** A field tag written `<--field --name="n" --default="d">` (or `.../>`) resolves
      to `n` with the provided value when there is one, and `d` otherwise. */
  lemma FieldWithDefault(n: string, d: string, selfClosing: bool, provided: map<string, string>, relpath: string)
    requires '"' !in n && '"' !in d
    ensures FieldValue(RenderTag("--field", [("--name", n), ("--default", d)], selfClosing), provided, relpath)
      == Ok((n, if n in provided then provided[n] else d))
  {
    var pairs := [("--name", n), ("--default", d)];
    assert IsAttrName("--name") && IsAttrName("--default");
    ParseRenderedTag("--field", pairs, selfClosing);
    assert pairs[1..] == [("--default", d)] && pairs[1..][1..] == [];
    assert Assign(map[], pairs) == Assign(map["--name" := n], [("--default", d)]);
    assert Assign(map["--name" := n], [("--default", d)]) == map["--name" := n]["--default" := d];
    assert "--name"[2] != "--default"[2];
  }

  /** A field tag with a `--name` but no `--default` resolves exactly when the field
      is provided, and is the "field required" error otherwise. */
  lemma FieldWithoutDefault(n: string, selfClosing: bool, provided: map<string, string>, relpath: string)
    requires '"' !in n
    ensures var r := FieldValue(RenderTag("--field", [("--name", n)], selfClosing), provided, relpath);
      && (n in provided ==> r == Ok((n, provided[n])))
      && (r == Err(FieldRequired(relpath, n)) <==> n !in provided)
  {
    var pairs := [("--name", n)];
    assert IsAttrName("--name");
    ParseRenderedTag("--field", pairs, selfClosing);
    assert pairs[1..] == [];
    assert Assign(map[], pairs) == map["--name" := n];
  }

  /** A field tag none of whose attributes is `--name` is the missing-name error,
      whatever else it carries. */
  lemma FieldWithoutName(pairs: seq<(string, string)>, selfClosing: bool, provided: map<string, string>, relpath: string)
    requires WellFormedPairs(pairs) && forall i :: 0 <= i < |pairs| ==> pairs[i].0 != "--name"
    ensures FieldValue(RenderTag("--field", pairs, selfClosing), provided, relpath) == Err(FieldMissingName(relpath))
  {
    ParseRenderedTag("--field", pairs, selfClosing);
    AssignKeys(map[], pairs);
  }

  /** `get_field_value` for the template at `relpath` with the provided fields. */
  function FieldOf(provided: map<string, string>, relpath: string): string -> Result<(string, string)> {
    tag => FieldValue(tag, provided, relpath)
  }

  /** The list comprehension over the field matches, resolving each tag with `fv`:
      the first error stops it. */
  function ResolveWith(text: string, ms: seq<(nat, nat)>, fv: string -> Result<(string, string)>)
    : Result<seq<Resolved>>
    requires forall k :: 0 <= k < |ms| ==> ms[k].0 <= ms[k].1 <= |text|
    decreases |ms|
  {
    if ms == [] then Ok([])
    else
      var (s, e) := ms[0];
      var f :- fv(text[s..e]);
      var rest :- ResolveWith(text, ms[1..], fv);
      Ok([Resolved(f.0, Sub(s, e, f.1))] + rest)
  }

  /** The list comprehension `[… get_field_value(t[0]) for t in field_tags]`. */
  function Resolve(text: string, ms: seq<(nat, nat)>, provided: map<string, string>, relpath: string)
    : Result<seq<Resolved>>
    requires forall k :: 0 <= k < |ms| ==> ms[k].0 <= ms[k].1 <= |text|
  {
    ResolveWith(text, ms, FieldOf(provided, relpath))
  }

  function Subs(rs: seq<Resolved>): (subs: seq<Sub>)
    ensures |subs| == |rs| && forall k :: 0 <= k < |rs| ==> subs[k] == rs[k].sub
  {
    seq(|rs|, k requires 0 <= k < |rs| => rs[k].sub)
  }

  function Names(rs: seq<Resolved>): set<string> {
    set k | 0 <= k < |rs| :: rs[k].name
  }

  /** Each inner-html tag is replaced by the usage's inner html, verbatim. */
  function InnerSubs(ms: seq<(nat, nat)>, html: string): (subs: seq<Sub>)
    ensures |subs| == |ms|
    ensures forall k :: 0 <= k < |ms| ==> subs[k] == Sub(ms[k].0, ms[k].1, html)
  {
    seq(|ms|, k requires 0 <= k < |ms| => Sub(ms[k].0, ms[k].1, html))
  }

  /** `rs` has one entry per field tag of `ms`, in order, with the tag's range and
      the name and value `get_field_value` gives for it. */
  predicate ResolvedAll(text: string, ms: seq<(nat, nat)>, provided: map<string, string>, relpath: string,
                        rs: seq<Resolved>)
    requires forall k :: 0 <= k < |ms| ==> ms[k].0 <= ms[k].1 <= |text|
  {
    |rs| == |ms| &&
    forall k :: 0 <= k < |ms| ==>
      rs[k].sub.start == ms[k].0 && rs[k].sub.end == ms[k].1 &&
      FieldValue(text[ms[k].0..ms[k].1], provided, relpath) == Ok((rs[k].name, rs[k].sub.repl))
  }

  /** The `k`-th field tag fails with `e`, and every earlier one resolves. */
  predicate FirstFailure(text: string, ms: seq<(nat, nat)>, provided: map<string, string>, relpath: string,
                         k: int, e: Error)
    requires forall k :: 0 <= k < |ms| ==> ms[k].0 <= ms[k].1 <= |text|
  {
    0 <= k < |ms| &&
    FieldValue(text[ms[k].0..ms[k].1], provided, relpath) == Err(e) &&
    forall j :: 0 <= j < k ==> FieldValue(text[ms[j].0..ms[j].1], provided, relpath).Ok?
  }

  /** `rs` resolves each tag of `ms` with `fv`, in order, keeping the tag's range. */
  predicate ResolvedWith(text: string, ms: seq<(nat, nat)>, fv: string -> Result<(string, string)>, rs: seq<Resolved>)
    requires forall k :: 0 <= k < |ms| ==> ms[k].0 <= ms[k].1 <= |text|
  {
    |rs| == |ms| &&
    forall k :: 0 <= k < |ms| ==>
      rs[k].sub.start == ms[k].0 && rs[k].sub.end == ms[k].1 &&
      fv(text[ms[k].0..ms[k].1]) == Ok((rs[k].name, rs[k].sub.repl))
  }

  /** The `k`-th tag fails with `e` under `fv`, and every earlier one resolves. */
  predicate FailsFirstWith(text: string, ms: seq<(nat, nat)>, fv: string -> Result<(string, string)>, k: int, e: Error)
    requires forall k :: 0 <= k < |ms| ==> ms[k].0 <= ms[k].1 <= |text|
  {
    0 <= k < |ms| && fv(text[ms[k].0..ms[k].1]) == Err(e) &&
    forall j :: 0 <= j < k ==> fv(text[ms[j].0..ms[j].1]).Ok?
  }

  lemma {:induction false} ResolveWithValues(text: string, ms: seq<(nat, nat)>, fv: string -> Result<(string, string)>)
    requires forall k :: 0 <= k < |ms| ==> ms[k].0 <= ms[k].1 <= |text|
    requires ResolveWith(text, ms, fv).Ok?
    ensures ResolvedWith(text, ms, fv, ResolveWith(text, ms, fv).value)
    decreases |ms|
  {
    if ms != [] {
      ResolveWithValues(text, ms[1..], fv);
      var rs := ResolveWith(text, ms, fv).value;
      assert rs[1..] == ResolveWith(text, ms[1..], fv).value;
    }
  }

  lemma {:induction false} ResolveWithError(text: string, ms: seq<(nat, nat)>, fv: string -> Result<(string, string)>)
    requires forall k :: 0 <= k < |ms| ==> ms[k].0 <= ms[k].1 <= |text|
    requires ResolveWith(text, ms, fv).Err?
    ensures exists k :: FailsFirstWith(text, ms, fv, k, ResolveWith(text, ms, fv).error)
    decreases |ms|
  {
    var e := ResolveWith(text, ms, fv).error;
    if fv(text[ms[0].0..ms[0].1]).Ok? {
      ResolveWithError(text, ms[1..], fv);
      var k :| FailsFirstWith(text, ms[1..], fv, k, e);
      assert forall j :: 0 < j < k + 1 ==> ms[j] == ms[1..][j - 1];
      assert FailsFirstWith(text, ms, fv, k + 1, e);
    } else {
      assert FailsFirstWith(text, ms, fv, 0, e);
    }
  }

  /** A successful resolution has one entry per field tag, in order, carrying the
      tag's range and the value `get_field_value` gives for it. */
  lemma ResolveValues(text: string, ms: seq<(nat, nat)>, provided: map<string, string>, relpath: string)
    requires forall k :: 0 <= k < |ms| ==> ms[k].0 <= ms[k].1 <= |text|
    requires Resolve(text, ms, provided, relpath).Ok?
    ensures ResolvedAll(text, ms, provided, relpath, Resolve(text, ms, provided, relpath).value)
  {
    var fv := FieldOf(provided, relpath);
    ResolveWithValues(text, ms, fv);
    var rs := Resolve(text, ms, provided, relpath).value;
    forall k | 0 <= k < |ms|
      ensures FieldValue(text[ms[k].0..ms[k].1], provided, relpath) == Ok((rs[k].name, rs[k].sub.repl))
    {
      assert fv(text[ms[k].0..ms[k].1]) == Ok((rs[k].name, rs[k].sub.repl));
    }
  }

  /** A failed resolution is the error of the first field tag that fails. */
  lemma ResolveError(text: string, ms: seq<(nat, nat)>, provided: map<string, string>, relpath: string)
    requires forall k :: 0 <= k < |ms| ==> ms[k].0 <= ms[k].1 <= |text|
    requires Resolve(text, ms, provided, relpath).Err?
    ensures exists k :: FirstFailure(text, ms, provided, relpath, k, Resolve(text, ms, provided, relpath).error)
  {
    var fv := FieldOf(provided, relpath);
    ResolveWithError(text, ms, fv);
    var e := Resolve(text, ms, provided, relpath).error;
    var k :| FailsFirstWith(text, ms, fv, k, e);
    assert forall j :: 0 <= j <= k ==> fv(text[ms[j].0..ms[j].1]) == FieldValue(text[ms[j].0..ms[j].1], provided, relpath);
    assert FirstFailure(text, ms, provided, relpath, k, e);
  }

  lemma NamesAppend(rs: seq<Resolved>, x: Resolved)
    ensures Names(rs + [x]) == Names(rs) + {x.name}
  {
    forall n | n in Names(rs + [x]) ensures n in Names(rs) + {x.name} {
      var k :| 0 <= k < |rs| + 1 && (rs + [x])[k].name == n;
      if k < |rs| { assert rs[k].name == n; }
    }
    forall n | n in Names(rs) ensures n in Names(rs + [x]) {
      var k :| 0 <= k < |rs| && rs[k].name == n;
      assert (rs + [x])[k].name == n;
    }
    assert (rs + [x])[|rs|].name == x.name;
  }

  /** Resolving the `i`-th tag moves it from the pending results to the done ones. */
  lemma ResolveStep(text: string, ms: seq<(nat, nat)>, i: nat, provided: map<string, string>, relpath: string,
                    done: seq<Resolved>)
    requires forall k :: 0 <= k < |ms| ==> ms[k].0 <= ms[k].1 <= |text|
    requires i < |ms|
    requires FieldValue(text[ms[i].0..ms[i].1], provided, relpath).Ok?
    ensures var f := FieldValue(text[ms[i].0..ms[i].1], provided, relpath).value;
      var x := Resolved(f.0, Sub(ms[i].0, ms[i].1, f.1));
      Prepended(done, Resolve(text, ms[i..], provided, relpath)) ==
      Prepended(done + [x], Resolve(text, ms[i + 1..], provided, relpath))
  {
    assert ms[i..][1..] == ms[i + 1..];
    var f := FieldValue(text[ms[i].0..ms[i].1], provided, relpath).value;
    var x := Resolved(f.0, Sub(ms[i].0, ms[i].1, f.1));
    var r := Resolve(text, ms[i + 1..], provided, relpath);
    if r.Ok? {
      assert (done + [x]) + r.value == done + ([x] + r.value);
    }
  }

  lemma ResolveStepErr(text: string, ms: seq<(nat, nat)>, i: nat, provided: map<string, string>, relpath: string,
                       done: seq<Resolved>)
    requires forall k :: 0 <= k < |ms| ==> ms[k].0 <= ms[k].1 <= |text|
    requires i < |ms|
    requires FieldValue(text[ms[i].0..ms[i].1], provided, relpath).Err?
    ensures Prepended(done, Resolve(text, ms[i..], provided, relpath)) ==
      Err(FieldValue(text[ms[i].0..ms[i].1], provided, relpath).error)
  {
    assert ms[i..][0] == ms[i];
  }

  lemma SubsAppend(rs: seq<Resolved>, x: Resolved)
    ensures Subs(rs + [x]) == Subs(rs) + [x.sub]
  {
    assert forall k :: 0 <= k < |rs| ==> (rs + [x])[k] == rs[k];
  }

  function Prepended(done: seq<Resolved>, r: Result<seq<Resolved>>): Result<seq<Resolved>> {
    match r
    case Err(e) => Err(e)
    case Ok(rs) => Ok(done + rs)
  }

  /** The source's comprehension with `unused_fields.discard`: resolves the field tags
      in order while removing each resolved name from the provided keys. */
  method ResolveFields(text: string, ms: seq<(nat, nat)>, provided: map<string, string>, relpath: string)
    returns (r: Result<(seq<Sub>, set<string>)>)
    requires forall k :: 0 <= k < |ms| ==> ms[k].0 <= ms[k].1 <= |text|
    ensures r == match Resolve(text, ms, provided, relpath)
      case Err(e) => Err(e)
      case Ok(rs) => Ok((Subs(rs), provided.Keys - Names(rs)))
  {
    var subs: seq<Sub> := [];
    var unused := provided.Keys;
    var i := 0;
    ghost var done: seq<Resolved> := [];
    assert ms[0..] == ms;
    assert Resolve(text, ms, provided, relpath).Ok? ==> [] + Resolve(text, ms, provided, relpath).value == Resolve(text, ms, provided, relpath).value;
    while i < |ms|
      invariant i <= |ms| && subs == Subs(done) && unused == provided.Keys - Names(done)
      invariant Resolve(text, ms, provided, relpath) == Prepended(done, Resolve(text, ms[i..], provided, relpath))
    {
      var (s, e) := ms[i];
      var f := FieldValue(text[s..e], provided, relpath);
      if f.Err? {
        ResolveStepErr(text, ms, i, provided, relpath, done);
        return Err(f.error);
      }
      var x := Resolved(f.value.0, Sub(s, e, f.value.1));
      NamesAppend(done, x);
      SubsAppend(done, x);
      ResolveStep(text, ms, i, provided, relpath, done);
      subs := subs + [x.sub];
      unused := unused - {x.name};
      done := done + [x];
      i := i + 1;
    }
    assert ms[i..] == [];
    assert done + [] == done;
    return Ok((subs, unused));
  }

  /** Substitutions in ascending order of start. */
  predicate SortedByStart(subs: seq<Sub>) {
    forall k :: 0 < k < |subs| ==> subs[k - 1].start <= subs[k].start
  }

  /** Inserts `x` before the first substitution that does not start earlier. */
  function Insert(x: Sub, s: seq<Sub>): seq<Sub>
    decreases |s|
  {
    if s == [] || x.start <= s[0].start then [x] + s else [s[0]] + Insert(x, s[1..])
  }

  /** `subs.sort(key=lambda r: r.start)`, as a stable insertion sort. */
  function SortByStart(s: seq<Sub>): seq<Sub>
    decreases |s|
  {
    if s == [] then [] else Insert(s[0], SortByStart(s[1..]))
  }

  lemma {:induction false} InsertPerm(x: Sub, s: seq<Sub>)
    ensures multiset(Insert(x, s)) == multiset(s) + multiset{x}
    ensures |Insert(x, s)| == |s| + 1
    ensures Insert(x, s)[0] == x || (s != [] && Insert(x, s)[0] == s[0])
    decreases |s|
  {
    if s != [] && x.start > s[0].start {
      InsertPerm(x, s[1..]);
      assert s == [s[0]] + s[1..];
    }
  }

  lemma {:induction false} InsertSorted(x: Sub, s: seq<Sub>)
    requires SortedByStart(s)
    ensures SortedByStart(Insert(x, s))
    decreases |s|
  {
    if s == [] || x.start <= s[0].start {
      var t := [x] + s;
      assert forall k :: 0 < k < |t| ==> t[k] == s[k - 1];
    } else {
      var u := Insert(x, s[1..]);
      assert SortedByStart(s[1..]) by {
        assert forall k :: 0 < k < |s| - 1 ==> s[1..][k - 1] == s[k] && s[1..][k] == s[k + 1];
      }
      InsertSorted(x, s[1..]);
      InsertPerm(x, s[1..]);
      assert s[0].start <= u[0].start by {
        if |s| > 1 { assert s[1..][0] == s[1]; }
      }
      var t := [s[0]] + u;
      assert forall k :: 0 < k < |t| ==> t[k] == u[k - 1];
    }
  }

  /** The sort orders the substitutions by start and keeps each of them. */
  lemma {:induction false} SortByStartCorrect(s: seq<Sub>)
    ensures SortedByStart(SortByStart(s))
    ensures multiset(SortByStart(s)) == multiset(s)
    decreases |s|
  {
    if s != [] {
      SortByStartCorrect(s[1..]);
      InsertSorted(s[0], SortByStart(s[1..]));
      InsertPerm(s[0], SortByStart(s[1..]));
      assert s == [s[0]] + s[1..];
    }
  }

  /** Every substitution replaces a range of `text`. */
  predicate ValidSubs(text: string, subs: seq<Sub>) {
    forall x :: x in subs ==> x.start <= x.end <= |text|
  }

  lemma ValidTail(text: string, subs: seq<Sub>)
    requires ValidSubs(text, subs) && subs != []
    ensures subs[0].start <= subs[0].end <= |text| && ValidSubs(text, subs[1..])
  {
    assert subs[0] in subs;
    assert forall x :: x in subs[1..] ==> x in subs;
  }

  /** The source's splice from `cursor`: the text before each range, its replacement,
      and the text after the last range; None when a range starts before the
      previous one ended. */
  function Spliced(text: string, subs: seq<Sub>, cursor: nat): Option<string>
    requires cursor <= |text| && ValidSubs(text, subs)
    decreases |subs|
  {
    if subs == [] then Some(text[cursor..])
    else if cursor > subs[0].start then None
    else
      ValidTail(text, subs);
      match Spliced(text, subs[1..], subs[0].end)
      case None => None
      case Some(rest) => Some(text[cursor..subs[0].start] + subs[0].repl + rest)
  }

  /** Where the `k`-th range may start at the earliest. */
  function Cursor(cursor: nat, subs: seq<Sub>, k: nat): nat
    requires k <= |subs|
  {
    if k == 0 then cursor else subs[k - 1].end
  }

  /** No range starts before the previous one (or the cursor) ends. */
  predicate Chained(subs: seq<Sub>, cursor: nat) {
    forall k :: 0 <= k < |subs| ==> Cursor(cursor, subs, k) <= subs[k].start
  }

  /** A chain is its first range followed by the chain of the others. */
  lemma ChainedCons(subs: seq<Sub>, cursor: nat)
    requires subs != []
    ensures Chained(subs, cursor) <==> cursor <= subs[0].start && Chained(subs[1..], subs[0].end)
  {
    assert forall k :: 0 < k < |subs| ==>
      subs[k] == subs[1..][k - 1] && Cursor(cursor, subs, k) == Cursor(subs[0].end, subs[1..], k - 1);
    if cursor <= subs[0].start && Chained(subs[1..], subs[0].end) {
      forall k | 0 <= k < |subs| ensures Cursor(cursor, subs, k) <= subs[k].start {
        if k > 0 { assert Cursor(subs[0].end, subs[1..], k - 1) <= subs[1..][k - 1].start; }
      }
    }
    if Chained(subs, cursor) {
      assert Cursor(cursor, subs, 0) <= subs[0].start;
      forall k | 0 <= k < |subs| - 1 ensures Cursor(subs[0].end, subs[1..], k) <= subs[1..][k].start {
        assert Cursor(cursor, subs, k + 1) <= subs[k + 1].start;
      }
    }
  }

  /** The splice succeeds exactly when the sorted ranges do not overlap. */
  lemma {:induction false} SplicedSomeIff(text: string, subs: seq<Sub>, cursor: nat)
    requires cursor <= |text| && ValidSubs(text, subs)
    ensures Spliced(text, subs, cursor).Some? <==> Chained(subs, cursor)
    decreases |subs|
  {
    if subs != [] {
      ValidTail(text, subs);
      SplicedSomeIff(text, subs[1..], subs[0].end);
      ChainedCons(subs, cursor);
    }
  }

  /** Replacing every range by its own text gives back the text after the cursor. */
  lemma {:induction false} SplicedIdentity(text: string, subs: seq<Sub>, cursor: nat)
    requires cursor <= |text| && ValidSubs(text, subs) && Chained(subs, cursor)
    requires forall x :: x in subs ==> x.repl == text[x.start..x.end]
    ensures Spliced(text, subs, cursor) == Some(text[cursor..])
    decreases |subs|
  {
    if subs != [] {
      var x := subs[0];
      ValidTail(text, subs);
      ChainedCons(subs, cursor);
      assert x in subs;
      assert x.repl == text[x.start..x.end];
      assert forall y :: y in subs[1..] ==> y in subs;
      SplicedIdentity(text, subs[1..], x.end);
      Rejoin(text, cursor, x.start, x.end);
    }
  }

  lemma Rejoin(text: string, a: nat, b: nat, c: nat)
    requires a <= b <= c <= |text|
    ensures text[a..b] + text[b..c] + text[c..] == text[a..]
  {
  }

  /** Total length of the replaced ranges, and of their replacements. */
  function Removed(subs: seq<Sub>): int {
    if subs == [] then 0 else subs[0].end - subs[0].start + Removed(subs[1..])
  }

  function Inserted(subs: seq<Sub>): nat {
    if subs == [] then 0 else |subs[0].repl| + Inserted(subs[1..])
  }

  /** The spliced text loses the replaced ranges and gains their replacements. */
  lemma {:induction false} SplicedLength(text: string, subs: seq<Sub>, cursor: nat)
    requires cursor <= |text| && ValidSubs(text, subs) && Spliced(text, subs, cursor).Some?
    ensures |Spliced(text, subs, cursor).value| == |text| - cursor - Removed(subs) + Inserted(subs)
    decreases |subs|
  {
    if subs != [] {
      ValidTail(text, subs);
      SplicedLength(text, subs[1..], subs[0].end);
    }
  }

  function Concat(parts: seq<string>): string {
    if parts == [] then "" else parts[0] + Concat(parts[1..])
  }

  lemma {:induction false} ConcatAppend(parts: seq<string>, a: string)
    ensures Concat(parts + [a]) == Concat(parts) + a
    decreases |parts|
  {
    if parts != [] {
      assert (parts + [a])[1..] == parts[1..] + [a];
      ConcatAppend(parts[1..], a);
    }
  }

  function Prefix(out: string, r: Option<string>): Option<string> {
    match r
    case None => None
    case Some(s) => Some(out + s)
  }

  /** One round of the splice loop moves a gap and a replacement into the output. */
  lemma SpliceStep(text: string, subs: seq<Sub>, cursor: nat, out: string)
    requires cursor <= |text| && ValidSubs(text, subs) && subs != [] && cursor <= subs[0].start
    ensures ValidSubs(text, subs[1..]) && subs[0].end <= |text|
    ensures Prefix(out, Spliced(text, subs, cursor)) ==
      Prefix(out + text[cursor..subs[0].start] + subs[0].repl, Spliced(text, subs[1..], subs[0].end))
  {
    ValidTail(text, subs);
    var r := Spliced(text, subs[1..], subs[0].end);
    if r.Some? {
      assert out + (text[cursor..subs[0].start] + subs[0].repl + r.value) ==
        out + text[cursor..subs[0].start] + subs[0].repl + r.value;
    }
  }

  /** The source's loop advancing `cursor` and appending to `parts`, then `"".join`. */
  method Splice(text: string, subs: seq<Sub>) returns (r: Option<string>)
    requires ValidSubs(text, subs)
    ensures r == Spliced(text, subs, 0)
  {
    var cursor: nat := 0;
    var parts: seq<string> := [];
    var i := 0;
    assert subs[0..] == subs;
    assert Spliced(text, subs, 0).Some? ==> "" + Spliced(text, subs, 0).value == Spliced(text, subs, 0).value;
    while i < |subs|
      invariant i <= |subs| && cursor <= |text| && ValidSubs(text, subs[i..])
      invariant Spliced(text, subs, 0) == Prefix(Concat(parts), Spliced(text, subs[i..], cursor))
    {
      var x := subs[i];
      assert subs[i..][0] == x && subs[i..][1..] == subs[i + 1..];
      if cursor > x.start {
        return None;
      }
      SpliceStep(text, subs[i..], cursor, Concat(parts));
      ConcatAppend(parts, text[cursor..x.start]);
      ConcatAppend(parts + [text[cursor..x.start]], x.repl);
      assert parts + [text[cursor..x.start], x.repl] == (parts + [text[cursor..x.start]]) + [x.repl];
      parts := parts + [text[cursor..x.start], x.repl];
      cursor := x.end;
      i := i + 1;
    }
    ConcatAppend(parts, text[cursor..]);
    return Some(Concat(parts + [text[cursor..]]));
  }

  /** Ranges in the text. */
  predicate InText(text: string, ms: seq<(nat, nat)>) {
    forall k :: 0 <= k < |ms| ==> ms[k].0 <= ms[k].1 <= |text|
  }

  lemma SubsValid(text: string, fms: seq<(nat, nat)>, ims: seq<(nat, nat)>, provided: map<string, string>,
                  relpath: string, rs: seq<Resolved>, html: string)
    requires InText(text, fms) && InText(text, ims)
    requires ResolvedAll(text, fms, provided, relpath, rs)
    ensures ValidSubs(text, SortByStart(Subs(rs) + InnerSubs(ims, html)))
  {
    assert SameRanges(rs, fms);
    AllSubsValid(text, fms, ims, rs, html);
    SortKeepsValid(text, Subs(rs) + InnerSubs(ims, html));
  }

  /** Each resolved field keeps the range of its tag. */
  predicate SameRanges(rs: seq<Resolved>, ms: seq<(nat, nat)>) {
    |rs| == |ms| && forall k :: 0 <= k < |ms| ==> rs[k].sub.start == ms[k].0 && rs[k].sub.end == ms[k].1
  }

  lemma AllSubsValid(text: string, fms: seq<(nat, nat)>, ims: seq<(nat, nat)>, rs: seq<Resolved>, html: string)
    requires InText(text, fms) && InText(text, ims) && SameRanges(rs, fms)
    ensures ValidSubs(text, Subs(rs) + InnerSubs(ims, html))
  {
    var all := Subs(rs) + InnerSubs(ims, html);
    forall x | x in all ensures x.start <= x.end <= |text| {
      var k :| 0 <= k < |all| && all[k] == x;
      if k >= |rs| { assert all[k] == InnerSubs(ims, html)[k - |rs|]; }
    }
  }

  /** Sorting keeps every range within the text. */
  lemma SortKeepsValid(text: string, s: seq<Sub>)
    requires ValidSubs(text, s)
    ensures ValidSubs(text, SortByStart(s))
  {
    SortByStartCorrect(s);
    forall x | x in SortByStart(s) ensures x.start <= x.end <= |text| {
      assert x in multiset(SortByStart(s));
    }
  }

  /** The substitutions of a template, in the order the splice takes them. */
  function SortedSubs(text: string, rs: seq<Resolved>, html: string): seq<Sub> {
    SortByStart(Subs(rs) + InnerSubs(FindVoidTags(text, InnerLit), html))
  }

  /** `process_template(template, fields_provided, inner_html)`: the spliced text and
      the provided fields no field tag used (the ones the source warns about). */
  function ProcessTemplateOf(template: File, provided: map<string, string>, html: string)
    : Result<(string, set<string>)>
  {
    if template.kind == Blob then Err(TemplateNotDocument(template.relpath))
    else
      var text := template.content;
      var fms := FindVoidTags(text, FieldLit);
      var ims := FindVoidTags(text, InnerLit);
      VoidTagsInText(text, FieldLit);
      VoidTagsInText(text, InnerLit);
      match Resolve(text, fms, provided, template.relpath)
      case Err(e) => Err(e)
      case Ok(rs) =>
        ResolveValues(text, fms, provided, template.relpath);
        SubsValid(text, fms, ims, provided, template.relpath, rs, html);
        match Spliced(text, SortedSubs(text, rs, html), 0)
        case None => Err(OverlappingTags(template.relpath))
        case Some(out) => Ok((out, provided.Keys - Names(rs)))
  }

  /** The source's `process_template`: resolving the fields with `discard`, sorting
      the substitutions and running the splice loop. */
  method ProcessTemplate(template: File, provided: map<string, string>, html: string)
    returns (r: Result<(string, set<string>)>)
    ensures r == ProcessTemplateOf(template, provided, html)
  {
    if template.kind == Blob {
      return Err(TemplateNotDocument(template.relpath));
    }
    var text := template.content;
    var fms := FindVoidTags(text, FieldLit);
    var ims := FindVoidTags(text, InnerLit);
    VoidTagsInText(text, FieldLit);
    VoidTagsInText(text, InnerLit);
    var resolved := ResolveFields(text, fms, provided, template.relpath);
    if resolved.Err? {
      return Err(resolved.error);
    }
    ghost var rs := Resolve(text, fms, provided, template.relpath).value;
    var (fieldSubs, unused) := resolved.value;
    var subs := fieldSubs + InnerSubs(ims, html);
    subs := SortByStart(subs);
    ResolveValues(text, fms, provided, template.relpath);
    SubsValid(text, fms, ims, provided, template.relpath, rs, html);
    var out := Splice(text, subs);
    if out.None? {
      return Err(OverlappingTags(template.relpath));
    }
    return Ok((out.value, unused));
  }

  /** A template without void tags comes back unchanged, and every provided field
      is reported unused. */
  lemma NoTagsUnchanged(template: File, provided: map<string, string>, html: string)
    requires template.kind == Document
    requires forall p :: 0 <= p < |template.content| ==>
      MatchAt(template.content, FieldLit, p).None? && MatchAt(template.content, InnerLit, p).None?
    ensures ProcessTemplateOf(template, provided, html) == Ok((template.content, provided.Keys))
  {
    var text := template.content;
    NoMatchesNoTags(text, FieldLit);
    NoMatchesNoTags(text, InnerLit);
    assert Resolve(text, [], provided, template.relpath) == Ok([]);
    assert Subs([]) + InnerSubs([], html) == [];
    assert SortedSubs(text, [], html) == [];
    assert text[0..] == text;
    assert Spliced(text, [], 0) == Some(text);
    assert Spliced(text, SortedSubs(text, [], html), 0) == Some(text);
    assert Names([]) == {};
    assert ProcessTemplateOf(template, provided, html) == Ok((text, provided.Keys - Names([])));
    assert provided.Keys - Names([]) == provided.Keys;
  }

  lemma NoMatchesNoTags(text: string, lit: string)
    requires forall p :: 0 <= p < |text| ==> MatchAt(text, lit, p).None?
    ensures FindVoidTags(text, lit) == []
  {
    var tbl := MatchTable(text, lit);
    assert forall p :: 0 <= p < |tbl| ==> tbl[p].None?;
    FindAllNone(tbl, 0);
  }

  lemma {:induction false} FindAllNone(tbl: seq<Option<nat>>, i: nat)
    requires Ascending(tbl)
    requires forall p :: i <= p < |tbl| ==> tbl[p].None?
    ensures FindAll(tbl, i) == []
    decreases |tbl| - i
  {
    if i < |tbl| { FindAllNone(tbl, i + 1); }
  }

  /** `<--inner-html>` at `i` is a void tag ending after its `>`. */
  lemma InnerTagAt(text: string, i: nat)
    requires StartsAt(text, i, InnerLit + ">")
    ensures MatchAt(text, InnerLit, i) == Some(i + |InnerLit| + 1)
  {
    var q := i + |InnerLit|;
    assert text[i..q] == text[i..q + 1][..|InnerLit|];
    assert text[q] == text[i..q + 1][|InnerLit|];
  }

  /** With a single void tag in the text, the scan finds exactly that one. */
  lemma SingleVoidTag(text: string, lit: string, i: nat, e: nat)
    requires MatchAt(text, lit, i) == Some(e)
    requires forall p :: 0 <= p < |text| && p != i ==> MatchAt(text, lit, p).None?
    ensures FindVoidTags(text, lit) == [(i, e)]
  {
    var tbl := MatchTable(text, lit);
    assert i < e <= |text|;
    FindAllSkip(tbl, 0, i);
    FindAllNone(tbl, e);
    assert FindAll(tbl, i) == [(i, e)] + FindAll(tbl, e);
  }

  lemma {:induction false} FindAllSkip(tbl: seq<Option<nat>>, lo: nat, i: nat)
    requires Ascending(tbl) && lo <= i <= |tbl|
    requires forall p :: lo <= p < i ==> tbl[p].None?
    ensures FindAll(tbl, lo) == FindAll(tbl, i)
    decreases i - lo
  {
    if lo < i { FindAllSkip(tbl, lo + 1, i); }
  }

  /** A template `a<--inner-html>b` with no field tag and no other inner-html tag
      comes out as `a`, the usage's inner html, then `b`, and every provided field
      is unused. */
  lemma InnerHtmlReplaced(template: File, a: string, b: string, provided: map<string, string>, html: string)
    requires template.kind == Document && template.content == a + InnerLit + ">" + b
    requires forall p :: 0 <= p < |template.content| ==> MatchAt(template.content, FieldLit, p).None?
    requires forall p :: 0 <= p < |template.content| && p != |a| ==> MatchAt(template.content, InnerLit, p).None?
    ensures ProcessTemplateOf(template, provided, html) == Ok((a + html + b, provided.Keys))
  {
    var text := template.content;
    var i, e := |a|, |a| + |InnerLit| + 1;
    assert text[i..e] == InnerLit + ">";
    InnerTagAt(text, i);
    SingleVoidTag(text, InnerLit, i, e);
    NoMatchesNoTags(text, FieldLit);
    var x := Sub(i, e, html);
    assert Resolve(text, [], provided, template.relpath) == Ok([]);
    assert Subs([]) + InnerSubs([(i, e)], html) == [x];
    assert SortByStart([x]) == [x] by { assert [x][1..] == []; }
    assert SortedSubs(text, [], html) == [x];
    assert Spliced(text, [], e) == Some(b);
    assert text[0..i] == a;
    assert Spliced(text, [x], 0) == Some(a + html + b);
    assert Names([]) == {};
    assert provided.Keys - Names([]) == provided.Keys;
  }

  /** The sorted substitutions are the field substitutions and one inner-html
      substitution per inner-html tag, each kept once. */
  lemma SortedSubsContents(text: string, rs: seq<Resolved>, html: string)
    ensures var sorted := SortedSubs(text, rs, html); var ims := FindVoidTags(text, InnerLit);
      |sorted| == |rs| + |ims| &&
      (forall k :: 0 <= k < |rs| ==> rs[k].sub in sorted) &&
      (forall k :: 0 <= k < |ims| ==> Sub(ims[k].0, ims[k].1, html) in sorted)
  {
    var ims := FindVoidTags(text, InnerLit);
    var all := Subs(rs) + InnerSubs(ims, html);
    var sorted := SortByStart(all);
    SortByStartCorrect(all);
    assert |multiset(sorted)| == |multiset(all)|;
    forall x | x in all ensures x in sorted { assert x in multiset(sorted); }
    forall k | 0 <= k < |ims| ensures Sub(ims[k].0, ims[k].1, html) in sorted {
      assert all[|rs| + k] == Sub(ims[k].0, ims[k].1, html);
    }
    forall k | 0 <= k < |rs| ensures rs[k].sub in sorted {
      assert all[k] == rs[k].sub;
    }
  }

  /** What a successful `process_template` returns, given the resolved field tags
      `rs`: the splice of the sorted substitutions, which do not overlap, and the
      provided fields that no field tag names. */
  predicate Outcome(text: string, rs: seq<Resolved>, provided: map<string, string>, html: string,
                    result: (string, set<string>))
  {
    var sorted := SortedSubs(text, rs, html);
    ValidSubs(text, sorted) && Chained(sorted, 0) && Spliced(text, sorted, 0) == Some(result.0) &&
    result.1 == provided.Keys - Names(rs)
  }

  /** On success every field tag has been resolved by `get_field_value`, the ranges
      do not overlap, the text is the splice of the sorted substitutions, and the
      unused fields are the provided ones no field tag names. */
  lemma ProcessTemplateOk(template: File, provided: map<string, string>, html: string)
    requires ProcessTemplateOf(template, provided, html).Ok?
    ensures template.kind == Document
    ensures InText(template.content, FindVoidTags(template.content, FieldLit))
    ensures Resolve(template.content, FindVoidTags(template.content, FieldLit), provided, template.relpath).Ok?
    ensures var text := template.content; var fms := FindVoidTags(text, FieldLit);
      var rs := Resolve(text, fms, provided, template.relpath).value;
      ResolvedAll(text, fms, provided, template.relpath, rs) &&
      Outcome(text, rs, provided, html, ProcessTemplateOf(template, provided, html).value)
  {
    var text := template.content;
    var fms := FindVoidTags(text, FieldLit);
    var ims := FindVoidTags(text, InnerLit);
    VoidTagsInText(text, FieldLit);
    VoidTagsInText(text, InnerLit);
    var rs := Resolve(text, fms, provided, template.relpath).value;
    ResolveValues(text, fms, provided, template.relpath);
    SubsValid(text, fms, ims, provided, template.relpath, rs, html);
    SplicedSomeIff(text, SortedSubs(text, rs, html), 0);
  }

  /** A field tag fails because it is not a valid tag, has no `--name`, or names a
      field that is neither provided nor defaulted. */
  lemma FieldValueErr(tag: string, provided: map<string, string>, relpath: string)
    requires FieldValue(tag, provided, relpath).Err?
    ensures var e := FieldValue(tag, provided, relpath).error; var a := ParseAttributesOf(tag);
      (e == InvalidTag(tag) && a.Err?) ||
      (e == FieldMissingName(relpath) && a.Ok? && "--name" !in a.value) ||
      (e.FieldRequired? && e.template == relpath && a.Ok? && "--name" in a.value &&
        a.value["--name"] == e.field && e.field !in provided && "--default" !in a.value)
  {
  }

  /** Why a Document template fails: the first field tag that fails, or, once all
      fields resolve, sorted ranges where one starts before the previous ends. */
  predicate TemplateFailure(text: string, relpath: string, provided: map<string, string>, html: string, e: Error)
    requires InText(text, FindVoidTags(text, FieldLit))
  {
    var fms := FindVoidTags(text, FieldLit);
    (exists k :: 0 <= k < |fms| && FirstFailure(text, fms, provided, relpath, k, e)) ||
    (Resolve(text, fms, provided, relpath).Ok? && e == OverlappingTags(relpath) &&
      var sorted := SortedSubs(text, Resolve(text, fms, provided, relpath).value, html);
      ValidSubs(text, sorted) && !Chained(sorted, 0))
  }

  /** A failing template fails as a Blob exactly when it is one, and otherwise for
      one of the reasons `TemplateFailure` lists. */
  lemma ProcessTemplateErr(template: File, provided: map<string, string>, html: string)
    requires ProcessTemplateOf(template, provided, html).Err?
    ensures template.kind == Blob <==>
      ProcessTemplateOf(template, provided, html).error == TemplateNotDocument(template.relpath)
    ensures InText(template.content, FindVoidTags(template.content, FieldLit))
    ensures template.kind == Document ==>
      TemplateFailure(template.content, template.relpath, provided, html, ProcessTemplateOf(template, provided, html).error)
  {
    var text := template.content;
    var fms := FindVoidTags(text, FieldLit);
    var ims := FindVoidTags(text, InnerLit);
    VoidTagsInText(text, FieldLit);
    VoidTagsInText(text, InnerLit);
    if template.kind == Document {
      var e := ProcessTemplateOf(template, provided, html).error;
      var r := Resolve(text, fms, provided, template.relpath);
      if r.Err? {
        ResolveError(text, fms, provided, template.relpath);
        var k :| FirstFailure(text, fms, provided, template.relpath, k, e);
        FieldValueErr(text[fms[k].0..fms[k].1], provided, template.relpath);
      } else {
        ResolveValues(text, fms, provided, template.relpath);
        SubsValid(text, fms, ims, provided, template.relpath, r.value, html);
        SplicedSomeIff(text, SortedSubs(text, r.value, html), 0);
      }
    }
  }
}
