/** The document expander (`process_html`): replaces template usages
    `<--template --name="t" …>inner</--template>` innermost first, until none is left. */
module Expander {
  import opened Errors
  import opened Text
  import opened Scanner
  import opened Tags
  import opened Attributes
  import opened Files
  import opened Resolver

  const UsageTag := "--template"

  /** One `--fields` part `a:b`: it must split on `:` into exactly two pieces, which
      are stripped of surrounding whitespace. */
  function ParseField(part: string): Option<(string, string)> {
    var pieces := Split(part, ':');
    if |pieces| == 2 then Some((Strip(pieces[0]), Strip(pieces[1]))) else None
  }

  /** A part of `--fields` is well formed when it has exactly one colon. */
  predicate IsFieldPart(part: string) { Count(part, ':') == 1 }

  /** Every part of `--fields` is well formed. */
  predicate AllFieldParts(parts: seq<string>) {
    forall k :: 0 <= k < |parts| ==> IsFieldPart(parts[k])
  }

  lemma ParseFieldSome(part: string)
    ensures ParseField(part).Some? <==> IsFieldPart(part)
  {
    SplitCount(part, ':');
  }

  /** The parts read from left to right; the first malformed one is the error. */
  function FieldPairs(parts: seq<string>): Result<seq<(string, string)>>
    decreases |parts|
  {
    if parts == [] then Ok([])
    else
      match ParseField(parts[0])
      case None => Err(CouldntParseField(parts[0]))
      case Some(p) =>
        var rest :- FieldPairs(parts[1..]);
        Ok([p] + rest)
  }

  /** The field map written in a `--fields` attribute; an empty one (or none) gives
      no fields. Later parts overwrite earlier ones. */
  function FieldsOf(fieldsStr: string): Result<map<string, string>> {
    if fieldsStr == "" then Ok(map[])
    else
      var pairs :- FieldPairs(Split(fieldsStr, ';'));
      Ok(Assign(map[], pairs))
  }

  /** The source's `for field_str in fields_str.split(";")` loop filling `fields`. */
  method ParseFields(fieldsStr: string) returns (r: Result<map<string, string>>)
    ensures r == FieldsOf(fieldsStr)
  {
    if fieldsStr == "" {
      return Ok(map[]);
    }
    var parts := Split(fieldsStr, ';');
    var fields: map<string, string> := map[];
    var i := 0;
    while i < |parts|
      invariant 0 <= i <= |parts|
      invariant FieldsOf(fieldsStr) == Assigned(fields, FieldPairs(parts[i..]))
    {
      FieldStep(parts, i, fields);
      var pieces := Split(parts[i], ':');
      if |pieces| != 2 {
        return Err(CouldntParseField(parts[i]));
      }
      fields := fields[Strip(pieces[0]) := Strip(pieces[1])];
      i := i + 1;
    }
    return Ok(fields);
  }

  /** The dictionary `fields` after the remaining pairs are assigned into it. */
  function Assigned(fields: map<string, string>, r: Result<seq<(string, string)>>): Result<map<string, string>> {
    match r
    case Err(e) => Err(e)
    case Ok(ps) => Ok(Assign(fields, ps))
  }

  /** One round of the loop: a malformed part is the error, and a well-formed one is
      assigned before the remaining parts. */
  lemma FieldStep(parts: seq<string>, i: nat, fields: map<string, string>)
    requires i < |parts|
    ensures var pieces := Split(parts[i], ':');
      && (|pieces| != 2 ==> Assigned(fields, FieldPairs(parts[i..])) == Err(CouldntParseField(parts[i])))
      && (|pieces| == 2 ==>
            (Assigned(fields, FieldPairs(parts[i..])) ==
             Assigned(fields[Strip(pieces[0]) := Strip(pieces[1])], FieldPairs(parts[i + 1..]))))
  {
    assert parts[i..][1..] == parts[i + 1..];
    assert parts[i..][0] == parts[i];
  }

  predicate PairsOfParts(parts: seq<string>, pairs: seq<(string, string)>) {
    |pairs| == |parts| && forall k :: 0 <= k < |parts| ==> ParseField(parts[k]) == Some(pairs[k])
  }

  predicate FirstBadPart(parts: seq<string>, e: Error) {
    exists k :: 0 <= k < |parts| && e == CouldntParseField(parts[k])
      && !IsFieldPart(parts[k]) && forall j :: 0 <= j < k ==> IsFieldPart(parts[j])
  }

  /** Reading the parts succeeds exactly when every part is well formed, giving one
      pair per part; otherwise it fails on the first part that is not. */
  lemma FieldPairsResult(parts: seq<string>)
    ensures FieldPairs(parts).Ok? <==> AllFieldParts(parts)
    ensures FieldPairs(parts).Ok? ==> PairsOfParts(parts, FieldPairs(parts).value)
    ensures FieldPairs(parts).Err? ==> FirstBadPart(parts, FieldPairs(parts).error)
  {
    FieldPairsOk(parts);
    if FieldPairs(parts).Ok? { FieldPairsEach(parts); } else { FieldPairsErr(parts); }
  }

  lemma {:induction false} FieldPairsOk(parts: seq<string>)
    ensures FieldPairs(parts).Ok? <==> AllFieldParts(parts)
    decreases |parts|
  {
    if parts != [] {
      ParseFieldSome(parts[0]);
      var tail := parts[1..];
      FieldPairsOk(tail);
      assert AllFieldParts(parts) <==> IsFieldPart(parts[0]) && AllFieldParts(tail) by {
        assert forall k :: 0 < k < |parts| ==> parts[k] == tail[k - 1];
      }
    }
  }

  lemma FieldPairsEach(parts: seq<string>)
    requires FieldPairs(parts).Ok?
    ensures PairsOfParts(parts, FieldPairs(parts).value)
  {
    forall k | 0 <= k < |parts| ensures ParseField(parts[k]) == Some(FieldPairs(parts).value[k]) {
      FieldPairsAt(parts, k);
    }
    if parts != [] { FieldPairsAt(parts, 0); }
  }

  /** The pair read for the `k`-th part is that part's pair. */
  lemma {:induction false} FieldPairsAt(parts: seq<string>, k: nat)
    requires FieldPairs(parts).Ok? && k < |parts|
    ensures |FieldPairs(parts).value| == |parts|
    ensures ParseField(parts[k]) == Some(FieldPairs(parts).value[k])
    decreases |parts|
  {
    var tail := parts[1..];
    var rest := FieldPairs(tail).value;
    assert FieldPairs(parts).value == [ParseField(parts[0]).value] + rest;
    if k > 0 {
      FieldPairsAt(tail, k - 1);
      assert parts[k] == tail[k - 1];
    } else if |tail| > 0 {
      FieldPairsAt(tail, 0);
    }
  }

  lemma {:induction false} FieldPairsErr(parts: seq<string>)
    requires FieldPairs(parts).Err?
    ensures FirstBadPart(parts, FieldPairs(parts).error)
    decreases |parts|
  {
    ParseFieldSome(parts[0]);
    var tail := parts[1..];
    if ParseField(parts[0]).Some? {
      assert FieldPairs(parts).error == FieldPairs(tail).error;
      FieldPairsErr(tail);
      var k :| 0 <= k < |tail| && FieldPairs(tail).error == CouldntParseField(tail[k])
        && !IsFieldPart(tail[k]) && forall j :: 0 <= j < k ==> IsFieldPart(tail[j]);
      assert tail[k] == parts[k + 1];
      assert forall j :: 0 <= j < k + 1 ==> IsFieldPart(parts[j]) by {
        forall j | 0 < j < k + 1 ensures IsFieldPart(parts[j]) { assert parts[j] == tail[j - 1]; }
      }
    } else {
      assert FieldPairs(parts).error == CouldntParseField(parts[0]);
    }
  }

  /** In a well-formed `--fields` value the last part naming a field decides its
      value, and the fields are exactly the names the parts give. */
  lemma FieldsOfLastWins(fieldsStr: string)
    requires fieldsStr != "" && FieldsOf(fieldsStr).Ok?
    ensures var parts := Split(fieldsStr, ';'); var pairs := FieldPairs(parts).value;
      && PairsOfParts(parts, pairs)
      && FieldsOf(fieldsStr).value.Keys == (set i | 0 <= i < |pairs| :: pairs[i].0)
      && forall i :: 0 <= i < |pairs| && (forall j :: i < j < |pairs| ==> pairs[j].0 != pairs[i].0) ==>
           FieldsOf(fieldsStr).value[pairs[i].0] == pairs[i].1
  {
    var pairs := FieldPairs(Split(fieldsStr, ';')).value;
    FieldPairsResult(Split(fieldsStr, ';'));
    AssignKeys(map[], pairs);
    forall i | 0 <= i < |pairs| && (forall j :: i < j < |pairs| ==> pairs[j].0 != pairs[i].0)
      ensures Assign(map[], pairs)[pairs[i].0] == pairs[i].1
    {
      AssignLast(map[], pairs, i);
    }
  }

  /** A malformed part makes the whole field map fail, naming the first such part. */
  lemma FieldsOfFails(fieldsStr: string)
    ensures fieldsStr == "" ==> FieldsOf(fieldsStr) == Ok(map[])
    ensures fieldsStr != "" ==> (FieldsOf(fieldsStr).Ok? <==> AllFieldParts(Split(fieldsStr, ';')))
    ensures FieldsOf(fieldsStr).Err? ==> FirstBadPart(Split(fieldsStr, ';'), FieldsOf(fieldsStr).error)
  {
    if fieldsStr != "" { FieldPairsResult(Split(fieldsStr, ';')); }
  }

  /** The fields given by `$name="v"` attributes: `name` set to `v`. */
  function DollarFields(attr: map<string, string>): map<string, string> {
    var names := set k | k in attr && |k| > 0 && k[0] == '$' :: k[1..];
    map f | f in names :: if "$" + f in attr then attr["$" + f] else ""
  }

  /** A field comes from a `$` attribute exactly when `$` followed by its name is
      one, and it takes that attribute's value. */
  lemma DollarFieldsOf(attr: map<string, string>, f: string)
    ensures f in DollarFields(attr) <==> "$" + f in attr
    ensures f in DollarFields(attr) ==> DollarFields(attr)[f] == attr["$" + f]
  {
    var names := set k | k in attr && |k| > 0 && k[0] == '$' :: k[1..];
    if f in names {
      var k :| k in attr && |k| > 0 && k[0] == '$' && k[1..] == f;
      assert k == "$" + f;
    }
    if "$" + f in attr {
      assert ("$" + f)[1..] == f;
    }
  }

  /** The value of `--fields`, or the empty string when it is absent. */
  function FieldsAttr(attr: map<string, string>): string {
    if "--fields" in attr then attr["--fields"] else ""
  }

  /** The field map of a usage: `--fields` first, then the `$name` attributes over it. */
  function FieldMap(attr: map<string, string>): Result<map<string, string>> {
    var fields :- FieldsOf(FieldsAttr(attr));
    Ok(fields + DollarFields(attr))
  }

  /** A `$name` attribute always wins; any other field comes from `--fields`. */
  lemma FieldMapOverride(attr: map<string, string>, f: string)
    requires FieldMap(attr).Ok?
    ensures "$" + f in attr ==> f in FieldMap(attr).value && FieldMap(attr).value[f] == attr["$" + f]
    ensures "$" + f !in attr ==>
      (f in FieldMap(attr).value <==> f in FieldsOf(FieldsAttr(attr)).value) &&
      (f in FieldMap(attr).value ==> FieldMap(attr).value[f] == FieldsOf(FieldsAttr(attr)).value[f])
  {
    DollarFieldsOf(attr, f);
  }

  /** The warnings of one round: the template used and the provided fields it left
      unused. The source warns once per such field while iterating a set, so the
      order within a round is not fixed; the rounds themselves come in order. */
  datatype Unused = Unused(template: string, fields: set<string>)

  /** The four offsets of a located usage lie in order within a text of length `n`. */
  predicate InBounds(loc: Location, n: nat) {
    loc.start <= loc.htmlStart <= loc.htmlEnd <= loc.end <= n
  }

  /** One round on the usage at `loc`: its attributes are parsed, the named template is
      looked up before the fields are read, and the template, processed with the
      usage's fields and inner html, replaces the usage. The result is the rewritten
      text, the template used and the fields it left unused. */
  function ExpandAt(text: string, templates: map<string, File>, loc: Location): Result<(string, File, set<string>)>
    requires InBounds(loc, |text|)
  {
    var attr :- ParseAttributesOf(text[loc.start..loc.htmlStart]);
    if "--name" !in attr then Err(TemplateNameRequired)
    else
      var name := attr["--name"];
      if name !in templates then Err(TemplateMissing(name))
      else
        var fields :- FieldMap(attr);
        var done :- ProcessTemplateOf(templates[name], fields, text[loc.htmlStart..loc.htmlEnd]);
        Ok((text[..loc.start] + done.0 + text[loc.end..], templates[name], done.1))
  }

  /** `process_html(text, templates)`, bounded by `fuel` rounds: the expanded text
      and the unused-field warnings of each round, in the order they are raised;
      OutOfFuel when the bound is reached. */
  function ProcessHtml(text: string, templates: map<string, File>, fuel: nat): Result<(string, seq<Unused>)>
    decreases fuel
  {
    var m :- FindTagOf(UsageTag, text);
    match m
    case None => Ok((text, []))
    case Some(loc) =>
      if fuel == 0 then Err(OutOfFuel)
      else
        FindTagShape(UsageTag, text);
        var step :- ExpandAt(text, templates, loc);
        var rest :- ProcessHtml(step.0, templates, fuel - 1);
        Ok((rest.0, [Unused(step.1.relpath, step.2)] + rest.1))
  }

  /** A text with no `<--template` and no `</--template` comes back unchanged. */
  lemma NoUsageUnchanged(text: string, templates: map<string, File>, fuel: nat)
    requires forall k :: !FormAt(text, UsageTag, k)
    ensures ProcessHtml(text, templates, fuel) == Ok((text, []))
  {
    FindTagNoneIff(UsageTag, text);
  }

  /** One round rewrites the text to `text[..start] + processed template + text[end..]`
      around the innermost usage and expands the result again with one round less,
      the round's unused fields coming before the later rounds' warnings; its
      errors are those of the round, and with no rounds left the expansion is out
      of fuel. */
  lemma ExpandStep(text: string, templates: map<string, File>, fuel: nat, loc: Location)
    returns (next: string, less: nat)
    requires FindTagOf(UsageTag, text) == Ok(Some(loc))
    ensures TagShape(text, UsageTag, loc) && InBounds(loc, |text|)
    ensures fuel == 0 ==> ProcessHtml(text, templates, fuel) == Err(OutOfFuel)
    ensures fuel > 0 && ExpandAt(text, templates, loc).Err? ==>
      ProcessHtml(text, templates, fuel) == Err(ExpandAt(text, templates, loc).error)
    ensures fuel > 0 && ExpandAt(text, templates, loc).Ok? ==>
      var step := ExpandAt(text, templates, loc).value;
      var rest := ProcessHtml(next, templates, less);
      && next == step.0 && less + 1 == fuel
      && ProcessHtml(text, templates, fuel) ==
           if rest.Err? then rest else Ok((rest.value.0, [Unused(step.1.relpath, step.2)] + rest.value.1))
  {
    FindTagShape(UsageTag, text);
    if fuel > 0 && ExpandAt(text, templates, loc).Ok? {
      var step := ExpandAt(text, templates, loc).value;
      next, less := step.0, fuel - 1;
      var rest := ProcessHtml(next, templates, less);
      if rest.Err? {
        assert ProcessHtml(text, templates, fuel) == Err(rest.error);
      } else {
        assert ProcessHtml(text, templates, fuel) == Ok((rest.value.0, [Unused(step.1.relpath, step.2)] + rest.value.1));
      }
    } else {
      next, less := text, 0;
    }
  }

  /** Any successful expansion has no `<--template` or `</--template` left in it. */
  lemma {:induction false} ExpandedHasNoUsage(text: string, templates: map<string, File>, fuel: nat)
    requires ProcessHtml(text, templates, fuel).Ok?
    ensures forall k :: !FormAt(ProcessHtml(text, templates, fuel).value.0, UsageTag, k)
    decreases fuel
  {
    var m := FindTagOf(UsageTag, text).value;
    if m.None? {
      FindTagNoneIff(UsageTag, text);
      assert ProcessHtml(text, templates, fuel) == Ok((text, []));
    } else {
      var next, less := ExpandStep(text, templates, fuel, m.value);
      ExpandedHasNoUsage(next, templates, less);
    }
  }

  /** A usage written out from its attribute pairs: `<--template n1="v1" … >`. */
  function UsageOpen(pairs: seq<(string, string)>): string { RenderTag(UsageTag, pairs, false) }

  const UsageClose := "</--template>"

  /** A text holding one usage with attributes `pairs` around `inner`. */
  function UsageText(pre: string, pairs: seq<(string, string)>, inner: string, post: string): string {
    pre + UsageOpen(pairs) + inner + UsageClose + post
  }

  /** The usage tag occurs only at `i` and `j`. */
  ghost predicate OnlyForms(text: string, i: nat, j: nat) {
    forall k :: FormAt(text, UsageTag, k) ==> k == i || k == j
  }

  /** A character the quote-aware search can look for past attribute pairs: it occurs
      in none of their names, `=` signs or separating spaces. */
  predicate OutsidePairs(c: char) { !IsQuoteChar(c) && !IsAttrNameChar(c) && c != '=' && c != ' ' }

  /** Written-out pairs are passed over by the quote-aware search: a `c` inside a value
      does not count. */
  lemma SkipRenderedPairs(text: string, c: char, b: nat, pairs: seq<(string, string)>)
    requires WellFormedPairs(pairs) && OutsidePairs(c)
    requires b + |RenderPairs(pairs)| <= |text| && text[b..b + |RenderPairs(pairs)|] == RenderPairs(pairs)
    ensures UnquotedIndexFrom(text, [c], b, None) == UnquotedIndexFrom(text, [c], b + |RenderPairs(pairs)|, None)
  {
    RenderedPairsAt(text, b, pairs);
    SkipPairsAt(text, c, b, pairs);
  }

  /** The text written for one pair: `name="value" `. */
  function PairHead(name: string, value: string): string { (name + "=") + ("\"" + value + "\"") + " " }

  /** Where the texts written for `pairs` end, when they start at `b`. */
  function PairsEnd(b: nat, pairs: seq<(string, string)>): nat
    decreases |pairs|
  {
    if pairs == [] then b else PairsEnd(b + |pairs[0].0| + |pairs[0].1| + 4, pairs[1..])
  }

  /** The well-formed pairs' texts lie one after another from `b`. */
  ghost predicate PairsAt(text: string, b: nat, pairs: seq<(string, string)>)
    decreases |pairs|
  {
    b <= |text| &&
    (pairs == [] ||
    var n := |pairs[0].0| + |pairs[0].1| + 4;
    && IsAttrName(pairs[0].0) && '"' !in pairs[0].1
    && b + n <= |text| && text[b..b + n] == PairHead(pairs[0].0, pairs[0].1)
    && PairsAt(text, b + n, pairs[1..]))
  }

  /** Written-out well-formed pairs lie at `b` one after another. */
  lemma {:induction false} RenderedPairsAt(text: string, b: nat, pairs: seq<(string, string)>)
    requires WellFormedPairs(pairs)
    requires b + |RenderPairs(pairs)| <= |text| && text[b..b + |RenderPairs(pairs)|] == RenderPairs(pairs)
    ensures PairsAt(text, b, pairs) && PairsEnd(b, pairs) == b + |RenderPairs(pairs)|
    decreases |pairs|
  {
    if pairs != [] {
      RenderedHead(text, b, pairs);
      RenderedPairsAt(text, b + |pairs[0].0| + |pairs[0].1| + 4, pairs[1..]);
    }
  }

  /** The quote-aware search passes over pairs lying one after another. */
  lemma {:induction false} SkipPairsAt(text: string, c: char, b: nat, pairs: seq<(string, string)>)
    requires PairsAt(text, b, pairs) && OutsidePairs(c)
    ensures UnquotedIndexFrom(text, [c], b, None) == UnquotedIndexFrom(text, [c], PairsEnd(b, pairs), None)
    decreases |pairs|
  {
    if pairs != [] {
      SkipPair(text, c, b, pairs[0].0, pairs[0].1);
      SkipPairsAt(text, c, b + |pairs[0].0| + |pairs[0].1| + 4, pairs[1..]);
    }
  }

  /** Written-out pairs at `b` are the first pair's text followed by the others. */
  lemma RenderedHead(text: string, b: nat, pairs: seq<(string, string)>)
    requires pairs != [] && WellFormedPairs(pairs)
    requires b + |RenderPairs(pairs)| <= |text| && text[b..b + |RenderPairs(pairs)|] == RenderPairs(pairs)
    ensures IsAttrName(pairs[0].0) && '"' !in pairs[0].1 && WellFormedPairs(pairs[1..])
    ensures var t, r := PairHead(pairs[0].0, pairs[0].1), RenderPairs(pairs[1..]);
      && |t| == |pairs[0].0| + |pairs[0].1| + 4 && |RenderPairs(pairs)| == |t| + |r|
      && text[b..b + |t|] == t && text[b + |t|..b + |t| + |r|] == r
  {
    WellFormedTail(pairs);
    var name, value, r := pairs[0].0, pairs[0].1, RenderPairs(pairs[1..]);
    assert RenderPairs(pairs) == PairHead(name, value) + r by { PairTextSplit(name, value, r); }
    SplitAt(text, b, PairHead(name, value), r);
  }

  lemma WellFormedTail(pairs: seq<(string, string)>)
    requires pairs != [] && WellFormedPairs(pairs)
    ensures IsAttrName(pairs[0].0) && '"' !in pairs[0].1 && WellFormedPairs(pairs[1..])
  {
    var tail := pairs[1..];
    forall i | 0 <= i < |tail| ensures IsAttrName(tail[i].0) && '"' !in tail[i].1 { assert tail[i] == pairs[i + 1]; }
  }

  lemma PairTextSplit(name: string, value: string, r: string)
    ensures PairText(name, value, r) == PairHead(name, value) + r
  {
  }

  /** One written-out pair `name="value" ` is passed over. */
  lemma SkipPair(text: string, c: char, b: nat, name: string, value: string)
    requires IsAttrName(name) && '"' !in value && OutsidePairs(c)
    requires b + |name| + |value| + 4 <= |text| && text[b..b + |name| + |value| + 4] == PairHead(name, value)
    ensures UnquotedIndexFrom(text, [c], b, None) == UnquotedIndexFrom(text, [c], b + |name| + |value| + 4, None)
  {
    var w, q := name + "=", "\"" + value + "\"";
    PairHeadPieces(name, value, c);
    SplitAt(text, b, w + q, " ");
    SplitAt(text, b, w, q);
    assert text[b + |w| - 1] == w[|w| - 1];
    SkipPlainText(text, c, b, w);
    SkipQuotedValue(text, c, b + |w|, q);
    SkipPlainText(text, c, b + |w| + |q|, " ");
  }

  /** The pieces of one pair's text: the name and `=` hold no quote and no `c`, the
      value is double-quoted, and a space follows. */
  lemma PairHeadPieces(name: string, value: string, c: char)
    requires IsAttrName(name) && '"' !in value && OutsidePairs(c)
    ensures var w, q := name + "=", "\"" + value + "\"";
      && PairHead(name, value) == w + q + " " && Plain(w, c) && DoubleQuoted(q) && w[|w| - 1] == '='
      && Plain(" ", c)
  {
    var w, q := name + "=", "\"" + value + "\"";
    forall k | 0 <= k < |w| ensures !IsQuoteChar(w[k]) && w[k] != c {
      if k < |name| { assert w[k] == name[k]; }
    }
    forall k | 0 < k < |q| - 1 ensures q[k] != '"' { assert q[k] == value[k - 1]; }
  }

  /** The opening usage tag is `<--template `, its pairs, then `>`. */
  lemma UsageOpenText(pairs: seq<(string, string)>)
    ensures UsageOpen(pairs) == "<--template " + RenderPairs(pairs) + ">"
  {
  }

  /** What the written-out opening tag looks like to the locator: its `>` is the first
      unquoted one, whatever the values hold. */
  lemma OpenUsageAt(text: string, i: nat, pairs: seq<(string, string)>)
    requires StartsAt(text, i, UsageOpen(pairs)) && WellFormedPairs(pairs)
    ensures OpenAt(text, UsageTag, i) && !CloseAt(text, UsageTag, i)
    ensures UnquotedIndex(text, ">", i) == Some(i + |UsageOpen(pairs)| - 1)
  {
    var w, r, t := "<--template ", RenderPairs(pairs), UsageOpen(pairs);
    UsageOpenText(pairs);
    SplitAt(text, i, w + r, ">");
    SplitAt(text, i, w, r);
    UsageGt(text, i, pairs);
    StartsAtPrefix(text, i, t, 11);
    assert t[..11] == "<" + UsageTag;
    assert text[i + 1] == t[1] == '-';
  }

  /** The pieces of an opening tag at `i` take the quote-aware search to its `>`. */
  lemma UsageGt(text: string, i: nat, pairs: seq<(string, string)>)
    requires WellFormedPairs(pairs)
    requires var w, r := "<--template ", RenderPairs(pairs);
      i + |w| + |r| < |text| && text[i..i + |w|] == w && text[i + |w|..i + |w| + |r|] == r
      && text[i + |w| + |r|] == '>'
    ensures UnquotedIndex(text, ">", i) == Some(i + 12 + |RenderPairs(pairs)|)
  {
    var w, r := "<--template ", RenderPairs(pairs);
    var e := i + 12 + |r|;
    assert ">" == ['>'] && |w| == 12;
    SkipPlainText(text, '>', i, w);
    SkipRenderedPairs(text, '>', i + 12, pairs);
    StopAt(text, '>', e);
  }

  /** What the closing tag looks like to the locator. */
  lemma CloseUsageAt(text: string, j: nat)
    requires StartsAt(text, j, UsageClose)
    ensures CloseAt(text, UsageTag, j) && !OpenAt(text, UsageTag, j)
    ensures UnquotedIndex(text, ">", j) == Some(j + |UsageClose| - 1)
  {
    var w := "</--template";
    assert UsageClose == w + ">";
    assert text[j..j + 12] == text[j..j + 13][..12];
    assert text[j + 1] == '/';
    assert !OpenAt(text, UsageTag, j) by {
      assert ("<" + UsageTag)[1] == '-';
      assert j + 11 <= |text| ==> text[j..j + 11][1] == text[j + 1];
    }
    PlainThenChar(text, '>', j, w);
  }

  /** The facts about the two forms that the locator's outcomes depend on. */
  ghost predicate TwoForms(text: string, i: nat, h: nat, j: nat, e: nat) {
    && OnlyForms(text, i, j) && i < h <= j < e
    && OpenAt(text, UsageTag, i) && !CloseAt(text, UsageTag, i) && UnquotedIndex(text, ">", i) == Some(h - 1)
    && CloseAt(text, UsageTag, j) && !OpenAt(text, UsageTag, j) && UnquotedIndex(text, ">", j) == Some(e - 1)
  }

  /** With an opening form at `i` and a closing form at `j` as the only forms, each
      ended by its first unquoted `>`, the locator finds that pair. */
  lemma FindUsageAt(text: string, i: nat, h: nat, j: nat, e: nat)
    requires TwoForms(text, i, h, j, e)
    ensures FindTagOf(UsageTag, text) == Ok(Some(Location(i, h, j, e)))
  {
    var r := FindTagOf(UsageTag, text);
    FindTagFromOutcomes(UsageTag, text, 0, 0);
    TwoFormsNoNone(text, i, h, j, e);
    TwoFormsNoMissingGt(text, i, h, j, e);
    TwoFormsNoOpenNoClose(text, i, h, j, e);
    TwoFormsNoCloseNoOpen(text, i, h, j, e);
    FindTagShape(UsageTag, text);
    TwoFormsShape(text, i, h, j, e, r.value.value);
  }

  lemma TwoFormsNoNone(text: string, i: nat, h: nat, j: nat, e: nat)
    requires TwoForms(text, i, h, j, e)
    ensures FindTagOf(UsageTag, text) != Ok(None)
  {
    assert FormAt(text, UsageTag, i);
    FindTagNoneIff(UsageTag, text);
  }

  lemma TwoFormsNoMissingGt(text: string, i: nat, h: nat, j: nat, e: nat)
    requires TwoForms(text, i, h, j, e)
    ensures FindTagOf(UsageTag, text) != Err(MissingGt)
  {
    FindTagErrors(UsageTag, text);
  }

  lemma TwoFormsNoOpenNoClose(text: string, i: nat, h: nat, j: nat, e: nat)
    requires TwoForms(text, i, h, j, e)
    ensures FindTagOf(UsageTag, text) != Err(OpenNoClose)
  {
    forall k, g | OpenAt(text, UsageTag, k) && UnquotedIndex(text, ">", k) == Some(g)
      ensures g < j && FormAt(text, UsageTag, j)
    {
      assert FormAt(text, UsageTag, k);
    }
    FindTagErrors(UsageTag, text);
  }

  lemma TwoFormsNoCloseNoOpen(text: string, i: nat, h: nat, j: nat, e: nat)
    requires TwoForms(text, i, h, j, e)
    ensures FindTagOf(UsageTag, text) != Err(CloseNoOpen)
  {
    assert FormAt(text, UsageTag, i);
    NextFormCorrect(text, UsageTag, 0);
    FindTagCloseNoOpenIff(UsageTag, text);
  }

  lemma TwoFormsShape(text: string, i: nat, h: nat, j: nat, e: nat, loc: Location)
    requires TwoForms(text, i, h, j, e) && TagShape(text, UsageTag, loc)
    ensures loc == Location(i, h, j, e)
  {
    assert FormAt(text, UsageTag, loc.start) && FormAt(text, UsageTag, loc.htmlEnd);
  }

  /** An opening usage tag at `i` and a closing one at `j` as the only forms are the
      pair the locator finds. */
  lemma UsageForms(text: string, i: nat, pairs: seq<(string, string)>, j: nat)
    requires WellFormedPairs(pairs) && i + |UsageOpen(pairs)| <= j && OnlyForms(text, i, j)
    requires StartsAt(text, i, UsageOpen(pairs)) && StartsAt(text, j, UsageClose)
    ensures FindTagOf(UsageTag, text) == Ok(Some(Location(i, i + |UsageOpen(pairs)|, j, j + |UsageClose|)))
  {
    var h, e := i + |UsageOpen(pairs)|, j + |UsageClose|;
    assert TwoForms(text, i, h, j, e) by {
      OpenUsageAt(text, i, pairs);
      CloseUsageAt(text, j);
    }
    FindUsageAt(text, i, h, j, e);
  }

  /** One round on `pre`, a usage with attributes `pairs` around `inner`, and `post`
      (with no other usage tag). The attributes are those the pairs assign. Without
      `--name` the round fails; an unknown name is the missing-template error; a bad
      `--fields` is its own error. Otherwise the named template is processed with the
      usage's field map and `inner`, and the text becomes `pre`, the processed
      template, then `post`, which is expanded again; the round's unused fields are the
      first warnings. */
  lemma UsageRound(pre: string, pairs: seq<(string, string)>, inner: string, post: string,
                   templates: map<string, File>, fuel: nat)
    requires WellFormedPairs(pairs)
    requires OnlyForms(UsageText(pre, pairs, inner, post), |pre|, |pre| + |UsageOpen(pairs)| + |inner|)
    ensures var attr := Assign(map[], pairs); var r := ProcessHtml(UsageText(pre, pairs, inner, post), templates, fuel + 1);
      && ("--name" !in attr ==> r == Err(TemplateNameRequired))
      && ("--name" in attr && attr["--name"] !in templates ==> r == Err(TemplateMissing(attr["--name"])))
      && ("--name" in attr && attr["--name"] in templates && FieldMap(attr).Err? ==> r == Err(FieldMap(attr).error))
      && ("--name" in attr && attr["--name"] in templates && FieldMap(attr).Ok? ==>
            var t := templates[attr["--name"]];
            var done := ProcessTemplateOf(t, FieldMap(attr).value, inner);
            && (done.Err? ==> r == Err(done.error))
            && (done.Ok? ==>
                  var rest := ProcessHtml(pre + done.value.0 + post, templates, fuel);
                  r == if rest.Err? then rest else Ok((rest.value.0, [Unused(t.relpath, done.value.1)] + rest.value.1))))
  {
    var loc := UsageLocated(pre, pairs, inner, post);
    RoundAt(UsageText(pre, pairs, inner, post), loc, Assign(map[], pairs), pre, inner, post, templates, fuel);
  }

  /** The located usage of a usage text: its attributes, and the text around and inside it. */
  lemma UsageLocated(pre: string, pairs: seq<(string, string)>, inner: string, post: string) returns (loc: Location)
    requires WellFormedPairs(pairs)
    requires OnlyForms(UsageText(pre, pairs, inner, post), |pre|, |pre| + |UsageOpen(pairs)| + |inner|)
    ensures var text := UsageText(pre, pairs, inner, post);
      && FindTagOf(UsageTag, text) == Ok(Some(loc)) && InBounds(loc, |text|)
      && ParseAttributesOf(text[loc.start..loc.htmlStart]) == Ok(Assign(map[], pairs))
      && text[..loc.start] == pre && text[loc.htmlStart..loc.htmlEnd] == inner && text[loc.end..] == post
  {
    var i := |pre|;
    var j := i + |UsageOpen(pairs)| + |inner|;
    loc := Location(i, i + |UsageOpen(pairs)|, j, j + |UsageClose|);
    var text := UsageText(pre, pairs, inner, post);
    assert FindTagOf(UsageTag, text) == Ok(Some(loc)) by {
      UsageStarts(pre, pairs, inner, post);
      UsageForms(text, i, pairs, j);
    }
    assert text[loc.start..loc.htmlStart] == UsageOpen(pairs) && InBounds(loc, |text|)
      && text[..loc.start] == pre && text[loc.htmlStart..loc.htmlEnd] == inner && text[loc.end..] == post
    by { UsageSlices(pre, pairs, inner, post); }
    UsageAttributes(pairs);
  }

  /** The attributes of a written-out usage are those its pairs assign. */
  lemma UsageAttributes(pairs: seq<(string, string)>)
    requires WellFormedPairs(pairs)
    ensures ParseAttributesOf(UsageOpen(pairs)) == Ok(Assign(map[], pairs))
  {
    assert IsTagName(UsageTag) by { assert forall k :: 0 <= k < |UsageTag| ==> IsTagNameChar(UsageTag[k]); }
    ParseRenderedTag(UsageTag, pairs, false);
  }

  /** One round on a text whose located usage has the attributes `attr`, with the text
      around and inside it given as `pre`, `inner` and `post`. */
  lemma RoundAt(text: string, loc: Location, attr: map<string, string>, pre: string, inner: string, post: string,
                templates: map<string, File>, fuel: nat)
    requires FindTagOf(UsageTag, text) == Ok(Some(loc)) && InBounds(loc, |text|)
    requires ParseAttributesOf(text[loc.start..loc.htmlStart]) == Ok(attr)
    requires text[..loc.start] == pre && text[loc.htmlStart..loc.htmlEnd] == inner && text[loc.end..] == post
    ensures var r := ProcessHtml(text, templates, fuel + 1);
      && ("--name" !in attr ==> r == Err(TemplateNameRequired))
      && ("--name" in attr && attr["--name"] !in templates ==> r == Err(TemplateMissing(attr["--name"])))
      && ("--name" in attr && attr["--name"] in templates && FieldMap(attr).Err? ==> r == Err(FieldMap(attr).error))
      && ("--name" in attr && attr["--name"] in templates && FieldMap(attr).Ok? ==>
            var t := templates[attr["--name"]];
            var done := ProcessTemplateOf(t, FieldMap(attr).value, inner);
            && (done.Err? ==> r == Err(done.error))
            && (done.Ok? ==>
                  var rest := ProcessHtml(pre + done.value.0 + post, templates, fuel);
                  r == if rest.Err? then rest else Ok((rest.value.0, [Unused(t.relpath, done.value.1)] + rest.value.1))))
  {
    var next, less := ExpandStep(text, templates, fuel + 1, loc);
  }

  /** The pieces of a usage text. */
  lemma UsageSlices(pre: string, pairs: seq<(string, string)>, inner: string, post: string)
    ensures var text := UsageText(pre, pairs, inner, post);
      var h := |pre| + |UsageOpen(pairs)|; var j := h + |inner|;
      && |text| == j + |UsageClose| + |post|
      && text[..|pre|] == pre && text[|pre|..h] == UsageOpen(pairs)
      && text[h..j] == inner && text[j + |UsageClose|..] == post
  {
  }

  /** Where the two usage tags of a usage text start. */
  lemma UsageStarts(pre: string, pairs: seq<(string, string)>, inner: string, post: string)
    ensures StartsAt(UsageText(pre, pairs, inner, post), |pre|, UsageOpen(pairs))
    ensures StartsAt(UsageText(pre, pairs, inner, post), |pre| + |UsageOpen(pairs)| + |inner|, UsageClose)
  {
    UsageSlices(pre, pairs, inner, post);
    var text := UsageText(pre, pairs, inner, post);
    var j := |pre| + |UsageOpen(pairs)| + |inner|;
    assert text[j..j + |UsageClose|] == UsageClose;
  }

  /** A usage none of whose pairs is `--name` is "template name required". */
  lemma UsageWithoutName(pre: string, pairs: seq<(string, string)>, inner: string, post: string,
                         templates: map<string, File>, fuel: nat)
    requires WellFormedPairs(pairs) && forall i :: 0 <= i < |pairs| ==> pairs[i].0 != "--name"
    requires OnlyForms(UsageText(pre, pairs, inner, post), |pre|, |pre| + |UsageOpen(pairs)| + |inner|)
    ensures ProcessHtml(UsageText(pre, pairs, inner, post), templates, fuel + 1) == Err(TemplateNameRequired)
  {
    UsageRound(pre, pairs, inner, post, templates, fuel);
    AssignKeys(map[], pairs);
  }

  /** A usage `<--template --name="n" >` processes template `n` with no fields. */
  lemma NamedUsageRound(pre: string, n: string, inner: string, post: string, templates: map<string, File>, fuel: nat)
    requires '"' !in n
    requires OnlyForms(UsageText(pre, [("--name", n)], inner, post), |pre|, |pre| + |UsageOpen([("--name", n)])| + |inner|)
    ensures var r := ProcessHtml(UsageText(pre, [("--name", n)], inner, post), templates, fuel + 1);
      && (n !in templates ==> r == Err(TemplateMissing(n)))
      && (n in templates ==>
            var done := ProcessTemplateOf(templates[n], map[], inner);
            && (done.Err? ==> r == Err(done.error))
            && (done.Ok? ==>
                  var rest := ProcessHtml(pre + done.value.0 + post, templates, fuel);
                  r == if rest.Err? then rest else Ok((rest.value.0, [Unused(templates[n].relpath, done.value.1)] + rest.value.1))))
  {
    var pairs := [("--name", n)];
    assert IsAttrName("--name");
    assert WellFormedPairs(pairs);
    NameOnlyFields(n);
    UsageRound(pre, pairs, inner, post, templates, fuel);
  }

  /** The attributes of a name-only usage give no fields. */
  lemma NameOnlyFields(n: string)
    ensures Assign(map[], [("--name", n)]) == map["--name" := n]
    ensures FieldMap(map["--name" := n]) == Ok(map[])
  {
    var pairs := [("--name", n)];
    assert pairs[1..] == [];
    var attr := map["--name" := n];
    assert "--name"[2] != "--fields"[2];
    assert FieldsAttr(attr) == "";
    assert DollarFields(attr) == map[] by {
      forall f ensures f !in DollarFields(attr) { DollarFieldsOf(attr, f); assert ("$" + f)[0] == '$'; }
    }
  }

  /** A usage of a template `a<--inner-html>b` (and no other void tag) turns into
      `pre + a + inner + b + post`: the inner html lands in the template's slot, and
      every field the usage provides is unused. */
  lemma InnerHtmlRound(pre: string, pairs: seq<(string, string)>, inner: string, post: string,
                       templates: map<string, File>, fuel: nat, a: string, b: string)
    requires WellFormedPairs(pairs)
    requires OnlyForms(UsageText(pre, pairs, inner, post), |pre|, |pre| + |UsageOpen(pairs)| + |inner|)
    requires var attr := Assign(map[], pairs);
      "--name" in attr && attr["--name"] in templates && FieldMap(attr).Ok?
    requires var t := templates[Assign(map[], pairs)["--name"]];
      t.kind == Document && t.content == a + InnerLit + ">" + b
      && (forall p :: 0 <= p < |t.content| ==> MatchAt(t.content, FieldLit, p).None?)
      && (forall p :: 0 <= p < |t.content| && p != |a| ==> MatchAt(t.content, InnerLit, p).None?)
    ensures var attr := Assign(map[], pairs); var t := templates[attr["--name"]];
      var rest := ProcessHtml(pre + (a + inner + b) + post, templates, fuel);
      ProcessHtml(UsageText(pre, pairs, inner, post), templates, fuel + 1) ==
        if rest.Err? then rest else Ok((rest.value.0, [Unused(t.relpath, FieldMap(attr).value.Keys)] + rest.value.1))
  {
    var attr := Assign(map[], pairs);
    UsageRound(pre, pairs, inner, post, templates, fuel);
    InnerHtmlReplaced(templates[attr["--name"]], a, b, FieldMap(attr).value, inner);
  }

  /** More fuel changes nothing once the expansion has finished within the bound. */
  lemma {:induction false} FuelMonotone(text: string, templates: map<string, File>, fuel: nat, more: nat)
    requires ProcessHtml(text, templates, fuel) != Err(OutOfFuel) && fuel <= more
    ensures ProcessHtml(text, templates, more) == ProcessHtml(text, templates, fuel)
    decreases fuel
  {
    var m := FindTagOf(UsageTag, text);
    if m.Ok? && m.value.Some? {
      var next, less := ExpandStep(text, templates, fuel, m.value.value);
      var next', less' := ExpandStep(text, templates, more, m.value.value);
      if ExpandAt(text, templates, m.value.value).Ok? {
        FuelMonotone(next, templates, less, less');
      }
    }
  }
}
