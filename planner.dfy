/** The build planner: which templates a page uses, how templates are named, which
    outputs are stray, and which pages must be rebuilt. The page, output and template
    inventories are given as sequences of files in the order they were found. */
module Planner {
  import opened Errors
  import opened Text
  import opened Tags
  import opened Attributes
  import opened Files
  import opened Expander

  // ---------------------------------------------------------------------------
  // template_names

  /** The names read by the source's loop, in the order it reads them: the innermost
      first usage is named, then the search goes on inside that usage's inner html
      only. A locator defect is attributed to the page, a missing `--name` is
      "template name required" in the page, and an unparsable tag is passed on as is. */
  function NamesFrom(page: string, text: string): Result<seq<string>>
    decreases |text|
  {
    match FindTagOf(UsageTag, text)
    case Err(e) => Err(InPage(page, e))
    case Ok(None) => Ok([])
    case Ok(Some(loc)) =>
      FindTagShape(UsageTag, text);
      var attr :- ParseAttributesOf(text[loc.start..loc.htmlStart]);
      if "--name" !in attr then Err(InPage(page, TemplateNameRequired))
      else
        var rest :- NamesFrom(page, text[loc.htmlStart..loc.htmlEnd]);
        Ok([attr["--name"]] + rest)
  }

  /** `template_names(page)`: no names for a Blob, otherwise the names read from the
      page's content. */
  function TemplateNames(page: File): Result<set<string>> {
    if page.kind.Blob? then Ok({})
    else
      var ns :- NamesFrom(page.relpath, page.content);
      Ok(set n | n in ns)
  }

  /** The source's `while True` loop adding to `names` and narrowing `text`. */
  method TemplateNamesOf(page: File) returns (r: Result<set<string>>)
    ensures r == TemplateNames(page)
  {
    if page.kind.Blob? {
      return Ok({});
    }
    var names: set<string> := {};
    var text := page.content;
    JoinedNone(NamesFrom(page.relpath, text));
    while true
      invariant TemplateNames(page) == Joined(names, NamesFrom(page.relpath, text))
      decreases |text|
    {
      var m := FindTag(UsageTag, text);
      if m.Err? {
        return Err(InPage(page.relpath, m.error));
      }
      if m.value.None? {
        assert (set n: string | n in []) == {};
        return Ok(names);
      }
      var loc := m.value.value;
      NamesStep(page.relpath, text, loc);
      var attr := ParseAttributes(text[loc.start..loc.htmlStart]);
      if attr.Err? {
        return Err(attr.error);
      }
      if "--name" !in attr.value {
        return Err(InPage(page.relpath, TemplateNameRequired));
      }
      var name := attr.value["--name"];
      JoinedStep(names, name, NamesFrom(page.relpath, text[loc.htmlStart..loc.htmlEnd]));
      names := names + {name};
      text := text[loc.htmlStart..loc.htmlEnd];
    }
  }

  /** The names collected so far together with those still to be read. */
  function Joined(names: set<string>, r: Result<seq<string>>): Result<set<string>> {
    match r
    case Err(e) => Err(e)
    case Ok(ns) => Ok(names + set n | n in ns)
  }

  lemma JoinedNone(r: Result<seq<string>>)
    ensures Joined({}, r) == match r case Err(e) => Err(e) case Ok(ns) => Ok(set n | n in ns)
  {
    if r.Ok? { assert {} + (set n | n in r.value) == set n | n in r.value; }
  }

  lemma JoinedStep(names: set<string>, name: string, r: Result<seq<string>>)
    ensures Joined(names, Prefixed(name, r)) == Joined(names + {name}, r)
  {
    if r.Ok? {
      var rest := set n | n in r.value;
      assert (set n | n in [name] + r.value) == {name} + rest;
      assert names + ({name} + rest) == (names + {name}) + rest;
    }
  }

  function Prefixed(name: string, r: Result<seq<string>>): Result<seq<string>> {
    match r
    case Err(e) => Err(e)
    case Ok(ns) => Ok([name] + ns)
  }

  /** One round of the loop: a located usage gives its `--name`, followed by the names
      read from its inner html. */
  lemma NamesStep(page: string, text: string, loc: Location)
    requires FindTagOf(UsageTag, text) == Ok(Some(loc))
    ensures TagShape(text, UsageTag, loc)
    ensures var a := ParseAttributesOf(text[loc.start..loc.htmlStart]);
      NamesFrom(page, text) ==
        if a.Err? then Err(a.error)
        else if "--name" !in a.value then Err(InPage(page, TemplateNameRequired))
        else Prefixed(a.value["--name"], NamesFrom(page, text[loc.htmlStart..loc.htmlEnd]))
  {
    FindTagShape(UsageTag, text);
  }

  /** A text that holds no form of the tag at offsets `a..b` has none in its slice. */
  lemma SliceHasNoForm(text: string, a: nat, b: nat)
    requires a <= b <= |text| && forall k :: a <= k < b ==> !FormAt(text, UsageTag, k)
    ensures forall k :: !FormAt(text[a..b], UsageTag, k)
  {
    forall k ensures !FormAt(text[a..b], UsageTag, k) {
      var s := text[a..b];
      var open, close := "<" + UsageTag, "</" + UsageTag;
      if StartsAt(s, k, open) {
        SliceOfSlice(text, a, b, k, k + |open|);
        assert FormAt(text, UsageTag, a + k);
        assert false;
      }
      if StartsAt(s, k, close) {
        SliceOfSlice(text, a, b, k, k + |close|);
        assert FormAt(text, UsageTag, a + k);
        assert false;
      }
    }
  }

  /** The loop stops after at most one name: the inner html of an innermost usage
      holds no further usage, so nested and later usages are never named. */
  lemma NamesAtMostOne(page: string, text: string)
    requires NamesFrom(page, text).Ok?
    ensures |NamesFrom(page, text).value| <= 1
  {
    match FindTagOf(UsageTag, text)
    case Ok(None) =>
    case Ok(Some(loc)) =>
      FindTagShape(UsageTag, text);
      var inner := text[loc.htmlStart..loc.htmlEnd];
      SliceHasNoForm(text, loc.htmlStart, loc.htmlEnd);
      FindTagNoneIff(UsageTag, inner);
      assert NamesFrom(page, inner) == Ok([]);
  }

  /** A Blob names no template; a Document names at most one, and exactly the
      `--name` of its innermost first usage when it has one. */
  lemma TemplateNamesBound(page: File)
    ensures page.kind.Blob? ==> TemplateNames(page) == Ok({})
    ensures TemplateNames(page).Ok? ==> |TemplateNames(page).value| <= 1
    ensures page.kind.Document? && FindTagOf(UsageTag, page.content) == Ok(None) ==>
      TemplateNames(page) == Ok({})
  {
    if page.kind.Document? && NamesFrom(page.relpath, page.content).Ok? {
      var ns := NamesFrom(page.relpath, page.content).value;
      NamesAtMostOne(page.relpath, page.content);
      if |ns| == 1 {
        assert (set n | n in ns) == {ns[0]};
      } else {
        assert (set n | n in ns) == {};
      }
    }
  }

  /** The errors of `template_names`: the locator's defects and a missing `--name`
      name the page, an unparsable tag does not. */
  lemma TemplateNamesErrors(page: File)
    requires page.kind.Document?
    ensures var r := FindTagOf(UsageTag, page.content);
      r.Err? ==> TemplateNames(page) == Err(InPage(page.relpath, r.error))
    ensures var r := FindTagOf(UsageTag, page.content);
      r.Ok? && r.value.Some? ==>
      TagShape(page.content, UsageTag, r.value.value) &&
      var tag := page.content[r.value.value.start..r.value.value.htmlStart];
      && (ParseAttributesOf(tag).Err? ==> TemplateNames(page) == Err(InvalidTag(tag)))
      && (ParseAttributesOf(tag).Ok? && "--name" !in ParseAttributesOf(tag).value ==>
            TemplateNames(page) == Err(InPage(page.relpath, TemplateNameRequired)))
  {
    FindTagShape(UsageTag, page.content);
    var r := FindTagOf(UsageTag, page.content);
    if r.Ok? && r.value.Some? {
      InvalidTagOnly(page.content[r.value.value.start..r.value.value.htmlStart]);
    }
  }

  // ---------------------------------------------------------------------------
  // template_ident

  /** `template_ident`: the relative path with one trailing `.html` or `.htm`
      removed; like the pattern's `$`, the suffix may also stand just before a final
      newline, which is kept. */
  function TemplateIdent(relpath: string): string {
    if EndsWith(relpath, ".html") then relpath[..|relpath| - 5]
    else if EndsWith(relpath, ".htm") then relpath[..|relpath| - 4]
    else if EndsWith(relpath, ".html\n") then relpath[..|relpath| - 6] + "\n"
    else if EndsWith(relpath, ".htm\n") then relpath[..|relpath| - 5] + "\n"
    else relpath
  }

  /** The relative path is reached again by putting back what was removed: exactly one
      `.html` or `.htm`, or nothing at all when the path has no such suffix. */
  lemma TemplateIdentStrips(relpath: string)
    ensures EndsWith(relpath, ".html") ==> relpath == TemplateIdent(relpath) + ".html"
    ensures !EndsWith(relpath, ".html") && EndsWith(relpath, ".htm") ==>
      relpath == TemplateIdent(relpath) + ".htm"
    ensures !EndsWith(relpath, ".html") && !EndsWith(relpath, ".htm") && EndsWith(relpath, ".html\n") ==>
      var id := TemplateIdent(relpath); EndsWith(id, "\n") && relpath == id[..|id| - 1] + ".html\n"
    ensures (!EndsWith(relpath, ".html") && !EndsWith(relpath, ".htm") && !EndsWith(relpath, ".html\n")
             && EndsWith(relpath, ".htm\n")) ==>
      var id := TemplateIdent(relpath); EndsWith(id, "\n") && relpath == id[..|id| - 1] + ".htm\n"
    ensures (!EndsWith(relpath, ".html") && !EndsWith(relpath, ".htm") && !EndsWith(relpath, ".html\n")
             && !EndsWith(relpath, ".htm\n")) ==> TemplateIdent(relpath) == relpath
  {
    var n := |relpath|;
    if EndsWith(relpath, ".html") {
      SuffixSplit(relpath, ".html");
    } else if EndsWith(relpath, ".htm") {
      SuffixSplit(relpath, ".htm");
    } else if EndsWith(relpath, ".html\n") {
      SuffixSplit(relpath, ".html\n");
      var id := relpath[..n - 6] + "\n";
      assert id[..|id| - 1] == relpath[..n - 6];
    } else if EndsWith(relpath, ".htm\n") {
      SuffixSplit(relpath, ".htm\n");
      var id := relpath[..n - 5] + "\n";
      assert id[..|id| - 1] == relpath[..n - 5];
    }
  }

  lemma SuffixSplit(s: string, p: string)
    requires EndsWith(s, p)
    ensures s == s[..|s| - |p|] + p
  {
    assert s == s[..|s| - |p|] + s[|s| - |p|..];
  }

  lemma EndsWithLast(s: string, p: string)
    requires EndsWith(s, p) && |p| > 0
    ensures s[|s| - 1] == p[|p| - 1]
  {
    assert s[|s| - |p|..][|p| - 1] == s[|s| - 1];
  }

  /** Adding a page suffix to a name and taking the identifier gives the name back,
      whatever the name is (in particular only one suffix goes: `a.html.html` is
      the template `a.html`). */
  lemma TemplateIdentOfSuffixed(name: string)
    ensures TemplateIdent(name + ".html") == name
    ensures TemplateIdent(name + ".htm") == name
  {
    assert (name + ".html")[|name + ".html"| - 5..] == ".html";
    assert (name + ".html")[..|name + ".html"| - 5] == name;
    assert (name + ".htm")[|name + ".htm"| - 4..] == ".htm";
    assert (name + ".htm")[..|name + ".htm"| - 4] == name;
    assert !EndsWith(name + ".htm", ".html") by {
      assert (name + ".htm")[|name + ".htm"| - 1] == 'm';
      if EndsWith(name + ".htm", ".html") { EndsWithLast(name + ".htm", ".html"); }
    }
  }

  // ---------------------------------------------------------------------------
  // create_page_builds: the template dictionary, lookups and stray outputs

  /** `{template_ident(doc): doc for doc in templates_list}`: a later template with
      the same identifier replaces an earlier one. */
  function TemplateMap(list: seq<File>): map<string, File>
    decreases |list|
  {
    if list == [] then map[]
    else TemplateMap(list[..|list| - 1])[TemplateIdent(list[|list| - 1].relpath) := list[|list| - 1]]
  }

  /** The dictionary holds one entry per identifier, taken from the last template
      having it. */
  lemma {:induction false} TemplateMapEntries(list: seq<File>, i: nat)
    requires i < |list| && forall j :: i < j < |list| ==> TemplateIdent(list[j].relpath) != TemplateIdent(list[i].relpath)
    ensures TemplateIdent(list[i].relpath) in TemplateMap(list)
    ensures TemplateMap(list)[TemplateIdent(list[i].relpath)] == list[i]
    decreases |list|
  {
    var front := list[..|list| - 1];
    if i < |list| - 1 {
      assert forall j :: i < j < |front| ==> front[j] == list[j];
      TemplateMapEntries(front, i);
      assert front[i] == list[i];
    }
  }

  /** The identifiers in the dictionary are exactly those of the templates. */
  lemma {:induction false} TemplateMapKeys(list: seq<File>, name: string)
    ensures name in TemplateMap(list) <==> exists j :: 0 <= j < |list| && TemplateIdent(list[j].relpath) == name
    ensures name in TemplateMap(list) ==> TemplateMap(list)[name] in list
    decreases |list|
  {
    if list != [] {
      var front, last := list[..|list| - 1], list[|list| - 1];
      assert list == front + [last];
      TemplateMapKeys(front, name);
      if name == TemplateIdent(last.relpath) {
        assert TemplateIdent(list[|list| - 1].relpath) == name;
      } else {
        IdentsOfFront(list, front, name);
      }
    }
  }

  /** A name other than the last template's identifier is one of the front's exactly
      when it is one of the whole list's. */
  lemma IdentsOfFront(list: seq<File>, front: seq<File>, name: string)
    requires list != [] && front == list[..|list| - 1] && TemplateIdent(list[|list| - 1].relpath) != name
    ensures (exists j :: 0 <= j < |front| && TemplateIdent(front[j].relpath) == name)
      <==> exists j :: 0 <= j < |list| && TemplateIdent(list[j].relpath) == name
  {
    if exists j :: 0 <= j < |list| && TemplateIdent(list[j].relpath) == name {
      var j :| 0 <= j < |list| && TemplateIdent(list[j].relpath) == name;
      assert front[j] == list[j];
    }
    if exists j :: 0 <= j < |front| && TemplateIdent(front[j].relpath) == name {
      var j :| 0 <= j < |front| && TemplateIdent(front[j].relpath) == name;
      assert front[j] == list[j];
    }
  }

  /** `get_templates_used` over the names read: the first name with no template is
      "template doesn't exist", naming the page. */
  function Lookup(page: string, ns: seq<string>, templates: map<string, File>): Result<map<string, File>>
    decreases |ns|
  {
    if ns == [] then Ok(map[])
    else if ns[0] !in templates then Err(UnknownTemplate(page, ns[0]))
    else
      var rest :- Lookup(page, ns[1..], templates);
      Ok(rest[ns[0] := templates[ns[0]]])
  }

  /** `get_templates_used(page)`. The source iterates over the set of names; since
      that set has at most one element, reading them in order is the same. */
  function TemplatesUsed(page: File, templates: map<string, File>): Result<map<string, File>> {
    if page.kind.Blob? then Ok(map[])
    else
      var ns :- NamesFrom(page.relpath, page.content);
      Lookup(page.relpath, ns, templates)
  }

  lemma {:induction false} LookupResult(page: string, ns: seq<string>, templates: map<string, File>)
    ensures Lookup(page, ns, templates).Ok? <==> forall k :: 0 <= k < |ns| ==> ns[k] in templates
    ensures Lookup(page, ns, templates).Ok? ==>
      && Lookup(page, ns, templates).value.Keys == (set n | n in ns)
      && forall n :: n in Lookup(page, ns, templates).value ==> Lookup(page, ns, templates).value[n] == templates[n]
    ensures Lookup(page, ns, templates).Err? ==>
      exists k :: 0 <= k < |ns| && ns[k] !in templates && Lookup(page, ns, templates).error == UnknownTemplate(page, ns[k])
    decreases |ns|
  {
    if ns != [] {
      var tail := ns[1..];
      LookupResult(page, tail, templates);
      assert forall k :: 0 < k < |ns| ==> ns[k] == tail[k - 1];
      if Lookup(page, ns, templates).Ok? {
        assert (set n | n in ns) == {ns[0]} + set n | n in tail;
      }
      if ns[0] in templates && Lookup(page, tail, templates).Err? {
        var k :| 0 <= k < |tail| && tail[k] !in templates && Lookup(page, tail, templates).error == UnknownTemplate(page, tail[k]);
        assert ns[k + 1] == tail[k];
      }
    }
  }

  /** The templates a page uses are exactly the names it reads, each mapped to its
      template; a name with no template is an error naming the page and the name. */
  lemma TemplatesUsedResult(page: File, templates: map<string, File>)
    requires TemplateNames(page).Ok?
    ensures var names := TemplateNames(page).value;
      TemplatesUsed(page, templates).Ok? <==> names <= templates.Keys
    ensures var names := TemplateNames(page).value; var r := TemplatesUsed(page, templates);
      r.Ok? ==> r.value.Keys == names && forall n :: n in r.value ==> r.value[n] == templates[n]
    ensures var names := TemplateNames(page).value; var r := TemplatesUsed(page, templates);
      r.Err? ==> exists n :: n in names && n !in templates && r.error == UnknownTemplate(page.relpath, n)
  {
    if page.kind.Document? {
      var ns := NamesFrom(page.relpath, page.content).value;
      LookupResult(page.relpath, ns, templates);
      if Lookup(page.relpath, ns, templates).Err? {
        var k :| 0 <= k < |ns| && ns[k] !in templates && Lookup(page.relpath, ns, templates).error == UnknownTemplate(page.relpath, ns[k]);
        assert ns[k] in TemplateNames(page).value;
      }
      if !(forall k :: 0 <= k < |ns| ==> ns[k] in templates) {
        var k :| 0 <= k < |ns| && ns[k] !in templates;
        assert ns[k] in TemplateNames(page).value;
      }
    }
  }

  /** `get_existing(page)`: the first output with the page's relative path. */
  function Existing(page: File, built: seq<File>): Option<File>
    decreases |built|
  {
    if built == [] then None
    else if built[0].relpath == page.relpath then Some(built[0])
    else Existing(page, built[1..])
  }

  lemma {:induction false} ExistingFirst(page: File, built: seq<File>)
    ensures Existing(page, built).None? <==> forall i :: 0 <= i < |built| ==> built[i].relpath != page.relpath
    ensures Existing(page, built).Some? ==>
      exists i :: 0 <= i < |built| && built[i] == Existing(page, built).value
        && built[i].relpath == page.relpath && forall j :: 0 <= j < i ==> built[j].relpath != page.relpath
    decreases |built|
  {
    if built != [] && built[0].relpath != page.relpath {
      var tail := built[1..];
      ExistingFirst(page, tail);
      assert forall i :: 0 < i < |built| ==> built[i] == tail[i - 1];
      if Existing(page, tail).Some? {
        var i :| 0 <= i < |tail| && tail[i] == Existing(page, tail).value
          && tail[i].relpath == page.relpath && forall j :: 0 <= j < i ==> tail[j].relpath != page.relpath;
        assert built[i + 1] == tail[i];
      }
    }
  }

  /** `has_src(f)`: some page has the output's relative path. */
  predicate HasSrc(f: File, pages: seq<File>) {
    exists i :: 0 <= i < |pages| && pages[i].relpath == f.relpath
  }

  /** `stray_pages`: the relative paths of the outputs without a page, in output order. */
  function Strays(pages: seq<File>, built: seq<File>): seq<string>
    decreases |built|
  {
    if built == [] then []
    else (if HasSrc(built[0], pages) then [] else [built[0].relpath]) + Strays(pages, built[1..])
  }

  /** A relative path is reported stray exactly when some output has it and no page does. */
  lemma {:induction false} StraysExact(pages: seq<File>, built: seq<File>, p: string)
    ensures p in Strays(pages, built) <==>
      (exists i :: 0 <= i < |built| && built[i].relpath == p) &&
      forall i :: 0 <= i < |pages| ==> pages[i].relpath != p
    decreases |built|
  {
    if built != [] {
      var tail := built[1..];
      StraysExact(pages, tail, p);
      assert forall i :: 0 < i < |built| ==> built[i] == tail[i - 1];
      if exists i :: 0 <= i < |built| && built[i].relpath == p {
        var i :| 0 <= i < |built| && built[i].relpath == p;
        if i > 0 { assert tail[i - 1].relpath == p; }
      }
    }
  }

  /** The positions of the outputs from `from` on that have no page, in increasing order. */
  function StrayAt(pages: seq<File>, built: seq<File>, from: nat): seq<nat>
    requires from <= |built|
    decreases |built| - from
  {
    if from == |built| then []
    else (if HasSrc(built[from], pages) then [] else [from]) + StrayAt(pages, built, from + 1)
  }

  /** `strays` holds the paths of the outputs from `from` on at the increasing positions
      `idx`, which are exactly the positions of the outputs without a page. */
  predicate PicksStrays(pages: seq<File>, built: seq<File>, from: nat, strays: seq<string>, idx: seq<nat>) {
    && |strays| == |idx|
    && Increasing(idx)
    && (forall k :: 0 <= k < |idx| ==> from <= idx[k] < |built| && strays[k] == built[idx[k]].relpath)
    && (forall i :: from <= i < |built| ==> (i in idx <==> !HasSrc(built[i], pages)))
  }

  /** The strays are reported in output order: the k-th stray is the path of the output
      at the k-th position that has no page. */
  lemma {:induction false} StraysKeepOrder(pages: seq<File>, built: seq<File>, from: nat)
    requires from <= |built|
    ensures PicksStrays(pages, built, from, Strays(pages, built[from..]), StrayAt(pages, built, from))
    decreases |built| - from
  {
    if from < |built| {
      StraysKeepOrder(pages, built, from + 1);
      var rest := StrayAt(pages, built, from + 1);
      var strays := Strays(pages, built[from + 1..]);
      StraysUnfold(pages, built, from);
      if HasSrc(built[from], pages) {
        StraysSkip(pages, built, from, strays, rest);
      } else {
        StraysCons(pages, built, from, strays, rest);
      }
    }
  }

  /** One step of the strays and of their positions. */
  lemma StraysUnfold(pages: seq<File>, built: seq<File>, from: nat)
    requires from < |built|
    ensures var h := HasSrc(built[from], pages);
      && Strays(pages, built[from..]) == (if h then [] else [built[from].relpath]) + Strays(pages, built[from + 1..])
      && StrayAt(pages, built, from) == (if h then [] else [from]) + StrayAt(pages, built, from + 1)
  {
    assert built[from..][1..] == built[from + 1..];
    assert built[from..][0] == built[from];
  }

  lemma StraysCons(pages: seq<File>, built: seq<File>, from: nat, strays: seq<string>, idx: seq<nat>)
    requires from < |built| && !HasSrc(built[from], pages)
    requires PicksStrays(pages, built, from + 1, strays, idx)
    ensures PicksStrays(pages, built, from, [built[from].relpath] + strays, [from] + idx)
  {
    var idx' := [from] + idx;
    var strays' := [built[from].relpath] + strays;
    assert Increasing(idx') by {
      forall k, l | 0 <= k < l < |idx'| ensures idx'[k] < idx'[l] {
        assert idx'[l] == idx[l - 1];
        if k > 0 { assert idx'[k] == idx[k - 1]; }
      }
    }
    forall k | 0 <= k < |idx'| ensures from <= idx'[k] < |built| && strays'[k] == built[idx'[k]].relpath {
      if k > 0 { assert idx'[k] == idx[k - 1] && strays'[k] == strays[k - 1]; }
    }
    forall i | from <= i < |built| ensures i in idx' <==> !HasSrc(built[i], pages) {
      assert i in idx' <==> i == from || i in idx;
    }
  }

  lemma StraysSkip(pages: seq<File>, built: seq<File>, from: nat, strays: seq<string>, idx: seq<nat>)
    requires from < |built| && HasSrc(built[from], pages)
    requires PicksStrays(pages, built, from + 1, strays, idx)
    ensures PicksStrays(pages, built, from, [] + strays, [] + idx)
  {
    assert [] + strays == strays && [] + idx == idx;
    assert from !in idx;
  }

  /** There are never more strays than outputs, and when no output has a page every
      output's path is a stray, in output order. */
  lemma {:induction false} StraysInOrder(pages: seq<File>, built: seq<File>)
    ensures |Strays(pages, built)| <= |built|
    ensures (forall i :: 0 <= i < |built| ==> !HasSrc(built[i], pages)) ==>
      Strays(pages, built) == seq(|built|, i requires 0 <= i < |built| => built[i].relpath)
    decreases |built|
  {
    if built != [] {
      var tail := built[1..];
      StraysInOrder(pages, tail);
      if forall i :: 0 <= i < |built| ==> !HasSrc(built[i], pages) {
        assert forall i :: 0 <= i < |tail| ==> tail[i] == built[i + 1];
        assert !HasSrc(built[0], pages);
      }
    }
  }

  // ---------------------------------------------------------------------------
  // PageBuild and is_required

  /** A page to build: its source, the output it replaces (None when new) and the
      templates it uses. */
  datatype PageBuild = PageBuild(src: File, replace: Option<File>, templates: map<string, File>)

  /** The `processed` rule: a build is expanded, rather than copied, exactly when its
      source is a Document that uses at least one template. */
  predicate NeedsExpansion(b: PageBuild) {
    b.src.kind.Document? && |b.templates| > 0
  }

  /** `max(files, key=mtime).mtime` for a non-empty list of files. */
  function MaxMtime(files: seq<File>): int
    requires |files| > 0
    decreases |files|
  {
    if |files| == 1 then files[0].mtime
    else
      var rest := MaxMtime(files[1..]);
      if files[0].mtime >= rest then files[0].mtime else rest
  }

  /** The maximum is strictly above `t` exactly when some file is. */
  lemma {:induction false} MaxMtimeAbove(files: seq<File>, t: int)
    requires |files| > 0
    ensures MaxMtime(files) > t <==> exists i :: 0 <= i < |files| && files[i].mtime > t
    decreases |files|
  {
    if |files| > 1 {
      var tail := files[1..];
      MaxMtimeAbove(tail, t);
      if exists i :: 0 <= i < |tail| && tail[i].mtime > t {
        var i :| 0 <= i < |tail| && tail[i].mtime > t;
        assert files[i + 1] == tail[i];
      }
      if exists i :: 0 <= i < |files| && files[i].mtime > t {
        var i :| 0 <= i < |files| && files[i].mtime > t;
        if i > 0 { assert tail[i - 1] == files[i]; }
      }
    }
  }

  /** `ts` lists the values of the dictionary, as `list(templates.values())` does. */
  predicate Lists(m: map<string, File>, ts: seq<File>) {
    (forall n :: n in m ==> m[n] in ts) && forall i :: 0 <= i < |ts| ==> ts[i] in m.Values
  }

  /** `is_required(build)`: forced, new, or some input strictly newer than the output. */
  predicate IsRequired(b: PageBuild, force: bool) {
    || force
    || b.replace.None?
    || b.src.mtime > b.replace.value.mtime
    || exists n :: n in b.templates && b.templates[n].mtime > b.replace.value.mtime
  }

  /** A build is required exactly when rebuilding is forced, no output exists, or the
      latest time over `[src] + templates.values()` is strictly after the output's:
      an output exactly as recent as its inputs is kept. This holds in whatever order
      the dictionary lists its values. */
  lemma IsRequiredIff(b: PageBuild, force: bool, ts: seq<File>)
    requires Lists(b.templates, ts)
    ensures IsRequired(b, force) <==>
      force || b.replace.None? || MaxMtime([b.src] + ts) > b.replace.value.mtime
  {
    if b.replace.Some? {
      var t := b.replace.value.mtime;
      var fs := [b.src] + ts;
      MaxMtimeAbove(fs, t);
      if exists n :: n in b.templates && b.templates[n].mtime > t {
        var n :| n in b.templates && b.templates[n].mtime > t;
        var i :| 0 <= i < |ts| && ts[i] == b.templates[n];
        assert fs[i + 1] == ts[i];
      }
      if exists i :: 0 <= i < |fs| && fs[i].mtime > t {
        var i :| 0 <= i < |fs| && fs[i].mtime > t;
        if i > 0 {
          assert fs[i] == ts[i - 1];
          assert ts[i - 1] in b.templates.Values;
          var n :| n in b.templates && b.templates[n] == ts[i - 1];
        }
      }
    }
  }

  /** The list comprehension building one PageBuild per page, in page order; the first
      page whose templates cannot be resolved is the error. */
  function PageBuilds(pages: seq<File>, built: seq<File>, templates: map<string, File>): Result<seq<PageBuild>>
    decreases |pages|
  {
    if pages == [] then Ok([])
    else
      var used :- TemplatesUsed(pages[0], templates);
      var rest :- PageBuilds(pages[1..], built, templates);
      Ok([PageBuild(pages[0], Existing(pages[0], built), used)] + rest)
  }

  /** Every page gets its build: its source, its existing output and its templates. */
  predicate BuildsFor(pages: seq<File>, built: seq<File>, templates: map<string, File>, bs: seq<PageBuild>) {
    |bs| == |pages| &&
    forall i :: 0 <= i < |pages| ==>
      bs[i].src == pages[i] && bs[i].replace == Existing(pages[i], built)
      && TemplatesUsed(pages[i], templates) == Ok(bs[i].templates)
  }

  /** The first page whose templates fail decides the error. */
  predicate FirstFailingPage(pages: seq<File>, templates: map<string, File>, e: Error) {
    exists i :: 0 <= i < |pages| && TemplatesUsed(pages[i], templates) == Err(e)
      && forall j :: 0 <= j < i ==> TemplatesUsed(pages[j], templates).Ok?
  }

  /** On success every page has its build, in page order. */
  lemma {:induction false} PageBuildsOk(pages: seq<File>, built: seq<File>, templates: map<string, File>)
    requires PageBuilds(pages, built, templates).Ok?
    ensures BuildsFor(pages, built, templates, PageBuilds(pages, built, templates).value)
    decreases |pages|
  {
    if pages != [] {
      var tail := pages[1..];
      PageBuildsOk(tail, built, templates);
      var bs := PageBuilds(pages, built, templates).value;
      var rest := PageBuilds(tail, built, templates).value;
      assert bs == [PageBuild(pages[0], Existing(pages[0], built), TemplatesUsed(pages[0], templates).value)] + rest;
      assert forall i :: 0 < i < |pages| ==> pages[i] == tail[i - 1] && bs[i] == rest[i - 1];
    }
  }

  /** On failure the error is that of the first page whose templates fail. */
  lemma {:induction false} PageBuildsErr(pages: seq<File>, built: seq<File>, templates: map<string, File>)
    requires PageBuilds(pages, built, templates).Err?
    ensures FirstFailingPage(pages, templates, PageBuilds(pages, built, templates).error)
    decreases |pages|
  {
    var tail := pages[1..];
    if TemplatesUsed(pages[0], templates).Ok? {
      var e := PageBuilds(tail, built, templates).error;
      assert PageBuilds(pages, built, templates).error == e;
      PageBuildsErr(tail, built, templates);
      var i :| 0 <= i < |tail| && TemplatesUsed(tail[i], templates) == Err(e)
        && forall j :: 0 <= j < i ==> TemplatesUsed(tail[j], templates).Ok?;
      assert pages[i + 1] == tail[i];
      assert forall j :: 0 < j <= i ==> pages[j] == tail[j - 1];
    }
  }

  /** The `processed` rule on a planned build: it is expanded exactly when its page
      is a Document holding a usage tag, and copied otherwise. */
  lemma ExpandedIffUsage(page: File, templates: map<string, File>, b: PageBuild)
    requires b.src == page && TemplatesUsed(page, templates) == Ok(b.templates)
    ensures NeedsExpansion(b) <==>
      page.kind.Document? && FindTagOf(UsageTag, page.content).Ok? && FindTagOf(UsageTag, page.content).value.Some?
  {
    if page.kind.Document? {
      var ns := NamesFrom(page.relpath, page.content).value;
      LookupResult(page.relpath, ns, templates);
      assert |b.templates| == |b.templates.Keys|;
      if FindTagOf(UsageTag, page.content).Ok? && FindTagOf(UsageTag, page.content).value.Some? {
        assert ns[0] in b.templates.Keys;
      } else {
        assert ns == [];
        assert b.templates.Keys == {};
      }
    }
  }

  /** Over a whole plan: the i-th build is expanded exactly when the i-th page is a
      Document holding a usage tag. */
  lemma PlanExpansions(pages: seq<File>, built: seq<File>, templates: map<string, File>, bs: seq<PageBuild>, i: nat)
    requires BuildsFor(pages, built, templates, bs) && i < |pages|
    ensures NeedsExpansion(bs[i]) <==>
      pages[i].kind.Document? && FindTagOf(UsageTag, pages[i].content).Ok?
      && FindTagOf(UsageTag, pages[i].content).value.Some?
  {
    ExpandedIffUsage(pages[i], templates, bs[i]);
  }

  /** `[b for b in page_builds if is_required(b)]`. */
  function Required(bs: seq<PageBuild>, force: bool): seq<PageBuild>
    decreases |bs|
  {
    if bs == [] then []
    else (if IsRequired(bs[0], force) then [bs[0]] else []) + Required(bs[1..], force)
  }

  /** The positions of the required builds, in increasing order. */
  function RequiredAt(bs: seq<PageBuild>, force: bool, from: nat): seq<nat>
    requires from <= |bs|
    decreases |bs| - from
  {
    if from == |bs| then []
    else (if IsRequired(bs[from], force) then [from] else []) + RequiredAt(bs, force, from + 1)
  }

  predicate Increasing(idx: seq<nat>) {
    forall k, l :: 0 <= k < l < |idx| ==> idx[k] < idx[l]
  }

  /** `kept` holds the builds of `bs` from `from` on at the increasing positions `idx`,
      which are exactly the positions of the required builds. */
  predicate Selects(bs: seq<PageBuild>, force: bool, from: nat, kept: seq<PageBuild>, idx: seq<nat>) {
    && |kept| == |idx|
    && Increasing(idx)
    && (forall k :: 0 <= k < |idx| ==> from <= idx[k] < |bs| && kept[k] == bs[idx[k]])
    && (forall i :: from <= i < |bs| ==> (i in idx <==> IsRequired(bs[i], force)))
  }

  /** The filter keeps the required builds and only them, in their original order:
      the k-th kept build is the build at the k-th required position. */
  lemma {:induction false} RequiredKeepsOrder(bs: seq<PageBuild>, force: bool, from: nat)
    requires from <= |bs|
    ensures Selects(bs, force, from, Required(bs[from..], force), RequiredAt(bs, force, from))
    decreases |bs| - from
  {
    if from < |bs| {
      RequiredKeepsOrder(bs, force, from + 1);
      var rest := RequiredAt(bs, force, from + 1);
      var kept := Required(bs[from + 1..], force);
      RequiredUnfold(bs, force, from);
      if IsRequired(bs[from], force) {
        RequiredCons(bs, force, from, kept, rest);
      } else {
        RequiredSkip(bs, force, from, kept, rest);
      }
    }
  }

  /** One step of the filter and of the positions. */
  lemma RequiredUnfold(bs: seq<PageBuild>, force: bool, from: nat)
    requires from < |bs|
    ensures var b := IsRequired(bs[from], force);
      && Required(bs[from..], force) == (if b then [bs[from]] else []) + Required(bs[from + 1..], force)
      && RequiredAt(bs, force, from) == (if b then [from] else []) + RequiredAt(bs, force, from + 1)
  {
    assert bs[from..][1..] == bs[from + 1..];
    assert bs[from..][0] == bs[from];
  }

  lemma RequiredCons(bs: seq<PageBuild>, force: bool, from: nat, kept: seq<PageBuild>, idx: seq<nat>)
    requires from < |bs| && IsRequired(bs[from], force)
    requires Selects(bs, force, from + 1, kept, idx)
    ensures Selects(bs, force, from, [bs[from]] + kept, [from] + idx)
  {
    var idx' := [from] + idx;
    var kept' := [bs[from]] + kept;
    assert Increasing(idx') by {
      forall k, l | 0 <= k < l < |idx'| ensures idx'[k] < idx'[l] {
        assert idx'[l] == idx[l - 1];
        if k > 0 { assert idx'[k] == idx[k - 1]; }
      }
    }
    forall k | 0 <= k < |idx'| ensures from <= idx'[k] < |bs| && kept'[k] == bs[idx'[k]] {
      if k > 0 { assert idx'[k] == idx[k - 1] && kept'[k] == kept[k - 1]; }
    }
    forall i | from <= i < |bs| ensures i in idx' <==> IsRequired(bs[i], force) {
      assert i in idx' <==> i == from || i in idx;
    }
  }

  lemma RequiredSkip(bs: seq<PageBuild>, force: bool, from: nat, kept: seq<PageBuild>, idx: seq<nat>)
    requires from < |bs| && !IsRequired(bs[from], force)
    requires Selects(bs, force, from + 1, kept, idx)
    ensures Selects(bs, force, from, [] + kept, [] + idx)
  {
    assert [] + kept == kept && [] + idx == idx;
    assert from !in idx;
  }

  /** With `force_rebuild` every build is required. */
  lemma {:induction false} ForcedKeepsAll(bs: seq<PageBuild>)
    ensures Required(bs, true) == bs
    decreases |bs|
  {
    if bs != [] {
      ForcedKeepsAll(bs[1..]);
      assert [bs[0]] + bs[1..] == bs;
    }
  }

  /** `create_page_builds` after the inventories are found: the required builds of all
      pages, or the first page's template error. */
  function CreatePageBuilds(pages: seq<File>, built: seq<File>, templatesList: seq<File>, force: bool): Result<seq<PageBuild>> {
    var bs :- PageBuilds(pages, built, TemplateMap(templatesList));
    Ok(Required(bs, force))
  }

  /** A page's build is planned exactly when it is required, and then it carries the
      page, its existing output and the templates it names. */
  lemma CreatePageBuildsPlans(pages: seq<File>, built: seq<File>, templatesList: seq<File>, force: bool)
    requires CreatePageBuilds(pages, built, templatesList, force).Ok?
    ensures var bs := PageBuilds(pages, built, TemplateMap(templatesList)).value;
      && BuildsFor(pages, built, TemplateMap(templatesList), bs)
      && CreatePageBuilds(pages, built, templatesList, force).value == Required(bs[0..], force)
  {
    var bs := PageBuilds(pages, built, TemplateMap(templatesList)).value;
    PageBuildsOk(pages, built, TemplateMap(templatesList));
    assert bs[0..] == bs;
  }
}
