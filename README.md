# hypertemplate, modelled in Dafny

hypertemplate is a static-site generator. Pages are pseudo-HTML documents. A page
uses a template with a `<--template --name="t" …>…</--template>` usage tag. A template
marks its own slots with `<--field --name="f" --default="…"/>` and
`<--inner-html/>` void tags. Building a site means three things:

- planning which pages need building;
- expanding each usage by splicing in the named template, with the usage's fields and
  inner HTML filled into the template's slots;
- writing the results out.

This project models the planning and expansion core of `hypertemplate.py`. The
files follow the program's layers:

- `errors.dfy`: `Option`, `Result`, and the program's error conditions. Each
  `DocumentError` or `BuildError` message is one constructor.
- `text.dfy`: character classes (`\s` and `\w`, ASCII only), `str.strip`, and
  `str.split` with a one-character separator. A split followed by a join gives the
  string back.
- `scanner.dfy`: `index_ignore_quoted`. This is the quote-aware search that finds
  the `>` ending a tag.
- `tags.dfy`: `find_tag`. It locates the innermost first `<tag …>…</tag>` pair.
- `attributes.dfy`: `parse_attributes`. This covers the prefix and suffix strip and
  the `name="value"` loop (the last value of a repeated name wins). Rendering a
  tag and parsing it again gives the same pairs back.
- `files.dfy`: the Document / Blob file record. Content and mtime are data.
- `resolver.dfy`: `process_template`. It covers the `re.finditer` scans for
  field and inner-html tags, `get_field_value`, the stable sort by start, and the
  overlap-checked splice together with the set of unused fields.
- `expander.dfy`: `process_html`. It covers the `--fields` parsing, the `$name`
  overrides and the recursive rewrite `text[:start] + repl + text[end:]`.
- `planner.dfy`: `template_names`, `template_ident` and the body of
  `create_page_builds`. That body includes the template dictionary,
  `get_templates_used`, `get_existing`, stray detection, `PageBuild`,
  `is_required` and the final filter.

Loops that update variables are methods. Each method is proved equal to a pure
function, and the properties are proved as lemmas about those functions. These are
the methods:

- `IndexIgnoreQuoted`
- `FindTag`
- `ParseAttributes`
- `ResolveFields`
- `Splice`
- `ProcessTemplate`
- `ParseFields`
- `TemplateNamesOf`

The recursive `process_html` is a recursive function bounded by fuel. The
comprehensions of `create_page_builds` are functions.

Two details of the source are worth stating:

- The module docstring (hypertemplate.py:57) says a template holds no more than one
  `--inner-html` tag. Nothing checks this: `process_template` replaces every such
  tag with the inner HTML, and so does the model.
- `process_html` looks up `templates[name]` without checking the name
  (hypertemplate.py:354). An unknown name therefore raises `KeyError`. The model
  returns that as the `TemplateMissing` error.

## Model

| member | source | states |
|---|---|---|
| Scanner.IndexIgnoreQuoted | hypertemplate.py:202-215 | the `for` loop with its `quote` state returns exactly the first unquoted occurrence at or after the start, or none |
| Scanner.UnquotedIndexCorrect | hypertemplate.py:202-215 | the index found is an occurrence outside every quoted region, and no earlier candidate is; "not present" means no candidate exists |
| Scanner.GtFound | hypertemplate.py:234 | a `>` that is found lies within the text, after the starting point |
| Scanner.QuotedThenChar | hypertemplate.py:202-215 | after plain text, a value in double quotes and more plain text, the first unquoted character searched for is the one that follows: an occurrence inside the quotes is skipped |
| Tags.FindTag | hypertemplate.py:218-244 | the `while True` loop gives the same result as the locator function |
| Tags.Scan | hypertemplate.py:228-237 | one turn's pattern search and quote-aware `>` search in text[html_start:] give exactly the outcome the locator function branches on |
| Tags.ScanFacts | hypertemplate.py:228-237 | each outcome of a turn means what the source reads it as: no form at or after html_start; a form with no unquoted `>`; an opening or closing form at the leftmost position with its first unquoted `>` |
| Tags.NextFormCorrect | hypertemplate.py:228 | the search for `</?tag` returns the leftmost form at or after the position, or none exists |
| Tags.FindTagNoneIff | hypertemplate.py:228-231 | the locator returns None exactly when the text holds no `<tag` and no `</tag` |
| Tags.FindTagShape | hypertemplate.py:226-244 | a found location has start < html_start <= html_end < end; the opening form sits at start and the closing form at html_end, each ended by its first unquoted `>`; no form of the tag lies in between (innermost) |
| Tags.FindTagCloseNoOpenIff | hypertemplate.py:237-238 | "closing tag with no matching open" happens exactly when the first form found is a closing one |
| Tags.FindTagErrors | hypertemplate.py:229-235 | "missing `>`" means some form has no unquoted `>`; "opening tag with no matching close" means no form follows an opening tag |
| Tags.FindTagFirstNoGt | hypertemplate.py:228-235 | conversely, when the first form in the text has no unquoted `>`, the result is "missing `>`" |
| Tags.FindTagLoneOpen | hypertemplate.py:228-241 | conversely, when the only form in the text is an opening tag with its `>`, the result is "opening tag with no matching close" |
| Tags.FindTagFromOutcomes | hypertemplate.py:218-244 | the locator fails only with the three locator errors |
| Text.StripSlice | hypertemplate.py:362 | `strip()` returns a middle slice with only whitespace around it, and it neither starts nor ends with whitespace |
| Text.SplitParts | hypertemplate.py:359-360 | `split` returns at least one part, and no part contains the separator |
| Text.JoinSplit | hypertemplate.py:359-360 | joining the parts with the separator gives back the string |
| Text.SplitCount | hypertemplate.py:360-361 | the number of parts is one more than the number of separators |
| Attributes.ParseAttributes | hypertemplate.py:247-265 | the `while text != ""` loop equals the parser function |
| Attributes.ParseAttributesFails | hypertemplate.py:254-255 | a tag that is empty or does not open with `<`, or that ends with neither `>` nor `>` plus a final newline, is "invalid tag" naming the tag |
| Attributes.UnclosedValueFails | hypertemplate.py:254-261 | a tag `<n …>` whose last value lacks its closing `"` is "invalid tag" naming the tag, after any number of well-formed pairs and with or without a final `/` |
| Attributes.ParseAttributesLastWins | hypertemplate.py:257-263 | the keys are exactly the names read, and the last pair with a name gives its value |
| Attributes.ParsedValuesHaveNoQuote | hypertemplate.py:259 | attribute values never contain `"` |
| Attributes.ParsePairsValues | hypertemplate.py:258-263 | every parsed pair has a non-empty name and a value without `"` |
| Attributes.EmptyTag | hypertemplate.py:254-258 | `<t>` and `<t/>` parse to the empty dictionary |
| Attributes.ParseRenderedPairs | hypertemplate.py:258-263 | written-out pairs `n="v" …` parse back to the same pairs, in order |
| Attributes.StripRenderedTag | hypertemplate.py:254-255 | the two strips of a written-out tag leave exactly its pairs |
| Attributes.ParseRenderedTag | hypertemplate.py:247-265 | parsing a written-out tag gives its pairs as a dictionary (round trip) |
| Attributes.AssignKeys | hypertemplate.py:262 | after the loop, the keys are the old keys plus the names assigned |
| Attributes.AssignLast | hypertemplate.py:262 | the last assignment to a key decides its value |
| Resolver.MatchAtShape | hypertemplate.py:307-308 | a void-tag match starts with its literal and ends with a `>` past it |
| Resolver.VoidTagsCorrect | hypertemplate.py:307-308 | `finditer` yields real matches, in order and without overlap; no match starts in a gap it skipped or after its last match |
| Resolver.VoidTagsInText | hypertemplate.py:307-308 | every match range lies within the template text |
| Resolver.FieldWithDefault | hypertemplate.py:286-299 | for a field tag `<--field --name="n" --default="d">` (or `…/>`), the value is the provided value for `n` if there is one, and `d` otherwise |
| Resolver.FieldWithoutDefault | hypertemplate.py:286-299 | for a field tag naming `n` with no `--default`, a provided value is used; the error is "field `n` required" exactly when `n` is not provided |
| Resolver.FieldWithoutName | hypertemplate.py:280-284 | a field tag whose well-formed attributes do not include `--name` is the missing-name error of its template, whatever is provided |
| Resolver.ResolveFields | hypertemplate.py:275-311 | the comprehension with `discard` gives the substitutions of the resolved fields and leaves the provided names that no field tag used |
| Resolver.ResolveValues | hypertemplate.py:310 | one substitution per field tag, in order, with the tag's range and its resolved value |
| Resolver.ResolveError | hypertemplate.py:310 | the error is that of the first field tag that fails, and all earlier tags resolve |
| Resolver.InnerHtmlReplaced | hypertemplate.py:305-328 | a Document template `a<--inner-html>b` with no other void tag becomes `a`, then the inner html verbatim, then `b`; every provided field is unused |
| Resolver.SortByStartCorrect | hypertemplate.py:316 | the sort orders substitutions by start and is a permutation |
| Resolver.SortedSubsContents | hypertemplate.py:310-316 | the sorted list holds every field substitution and one inner-html substitution per tag |
| Resolver.SplicedSomeIff | hypertemplate.py:318-323 | the splice succeeds exactly when no range starts before the previous one ends |
| Resolver.SplicedIdentity | hypertemplate.py:318-328 | replacing ranges by their own text gives back the text |
| Resolver.SplicedLength | hypertemplate.py:318-328 | the output length is the text length minus the replaced ranges plus the replacements |
| Resolver.Splice | hypertemplate.py:318-328 | the cursor loop and `"".join` give the splice function's result |
| Resolver.ProcessTemplate | hypertemplate.py:268-328 | `process_template` as a method equals the template-processing function |
| Resolver.NoTagsUnchanged | hypertemplate.py:305-328 | a template without void tags comes back unchanged, and all provided fields are unused |
| Resolver.ProcessTemplateOk | hypertemplate.py:268-328 | on success every field tag resolved, the ranges do not overlap, the text is the splice of the sorted substitutions, and the unused fields are those no tag named |
| Resolver.ProcessTemplateErr | hypertemplate.py:277-322 | a failure is a Blob template, the first failing field tag, or overlapping tags |
| Expander.ParseFieldSome | hypertemplate.py:360-362 | a `--fields` part parses exactly when it has exactly one `:` |
| Expander.ParseFields | hypertemplate.py:356-362 | the `split(";")` loop filling `fields` equals the field-map function |
| Expander.FieldPairsResult | hypertemplate.py:359-362 | parts parse exactly when all are well formed, one stripped pair per part; otherwise the error is "couldn't parse field" naming the first bad part |
| Expander.FieldsOfLastWins | hypertemplate.py:359-362 | the fields are exactly the names given, and the last part naming a field gives its value |
| Expander.FieldsOfFails | hypertemplate.py:358-361 | an empty `--fields` gives no fields; otherwise success exactly when every part is well formed, and the error names the first bad part |
| Expander.DollarFieldsOf | hypertemplate.py:364-366 | a field comes from `$` exactly when `$name` is an attribute, and it takes that value |
| Expander.FieldMapOverride | hypertemplate.py:352-366 | a `$name` attribute always beats `--fields`; every other field comes from `--fields` unchanged |
| Expander.NoUsageUnchanged | hypertemplate.py:340 | a text without usage tags is returned unchanged, with no warnings |
| Expander.OpenUsageAt | hypertemplate.py:228-234 | an opening usage tag `<--template n1="v1" … >` written out from any well-formed attribute pairs is an opening form whose first unquoted `>` is its last character, whatever `>` the values hold |
| Expander.UsageForms | hypertemplate.py:340-344 | in a text holding an opening usage tag `<--template n1="v1" … >` and later a `</--template>`, with no other usage tag, the locator finds exactly that usage: the opening tag, the html between and the closing tag |
| Expander.UsageRound | hypertemplate.py:340-371 | one round on `pre + <--template n1="v1" … > + inner + </--template> + post`, with no other usage tag: the attributes are those the pairs assign; with no `--name` the round fails with "template name required", an unknown name is the missing-template error, a bad `--fields` part is its own error; otherwise the named template is processed with the field map of those attributes and `inner`, its error is the result, and on success the expansion goes on with `pre + repl + post`, the round's unused fields coming first among the warnings |
| Expander.UsageWithoutName | hypertemplate.py:346-348 | a usage none of whose attributes is `--name` fails with "template name required", whatever else it holds |
| Expander.NamedUsageRound | hypertemplate.py:346-368 | a usage `<--template --name="n" >` processes template `n` with no fields; an unknown `n` is the missing-template error |
| Expander.InnerHtmlRound | hypertemplate.py:340-371 | a usage of a template `a<--inner-html>b` turns into `pre + a + inner + b + post`, which is expanded further; every field the usage provides is reported unused for this round |
| Expander.ExpandedHasNoUsage | hypertemplate.py:331-371 | a successful expansion contains no `<--template` or `</--template` |
| Expander.FuelMonotone | hypertemplate.py:331-371 | more fuel changes nothing once the expansion has finished |
| Planner.TemplateNamesOf | hypertemplate.py:390-411 | the `while True` loop narrowing `text` gives the template-names function |
| Planner.NamesAtMostOne | hypertemplate.py:399-410 | the loop reads at most one name: an innermost usage holds no further usage |
| Planner.TemplateNamesBound | hypertemplate.py:397-411 | a Blob names nothing; a Document names at most one template; a Document without usage names nothing |
| Planner.TemplateNamesErrors | hypertemplate.py:400-409 | locator errors and a missing `--name` are wrapped with the page; an unparsable tag is not |
| Planner.TemplateIdentStrips | hypertemplate.py:414-417 | exactly one trailing `.html` or `.htm` is removed (also before a final newline); other paths are unchanged |
| Planner.TemplateIdentOfSuffixed | hypertemplate.py:417 | `name.html` and `name.htm` both identify as `name` |
| Planner.TemplateMapEntries | hypertemplate.py:429 | each template's ident maps to the last template listed with that ident |
| Planner.TemplateMapKeys | hypertemplate.py:429 | the keys are exactly the idents of the listed templates |
| Planner.LookupResult | hypertemplate.py:433-437 | the lookup succeeds exactly when every name is a template; the result maps exactly those names to their templates; otherwise "template doesn't exist" names the page and the name |
| Planner.TemplatesUsedResult | hypertemplate.py:431-437 | `get_templates_used` succeeds exactly when the page's names are all templates, maps each name to its template, and otherwise names the page and the unknown template |
| Planner.ExistingFirst | hypertemplate.py:439 | the existing output is the first built file with the page's path, or None when there is none |
| Planner.StraysExact | hypertemplate.py:440-442 | a path is stray exactly when it is a built file's path and no source page has it |
| Planner.StraysKeepOrder | hypertemplate.py:441-442 | the strays are the built files without a source page, in built-file order: the k-th stray is the path of the built file at the k-th such position, and the positions are exactly those without a source |
| Planner.StraysInOrder | hypertemplate.py:442 | there are never more strays than built files, and with no source pages every built file is stray, in order |
| Planner.MaxMtimeAbove | hypertemplate.py:450 | the maximum mtime exceeds t exactly when some file's mtime does |
| Planner.IsRequiredIff | hypertemplate.py:447-450 | a build is required exactly when forced, new, or when the newest of its source and templates is strictly newer than its output |
| Planner.PageBuildsOk | hypertemplate.py:445 | one build per page, in page order, with the page, its existing output and its templates |
| Planner.PageBuildsErr | hypertemplate.py:445 | a failure is the template error of the first failing page |
| Planner.ExpandedIffUsage | hypertemplate.py:166-167 | a build is processed exactly when its page is a Document holding a usage tag |
| Planner.PlanExpansions | hypertemplate.py:445 | in a plan, the i-th build is processed exactly when the i-th page is a Document with a usage |
| Planner.RequiredKeepsOrder | hypertemplate.py:452 | the filter keeps exactly the required builds, at increasing positions, in their original order |
| Planner.ForcedKeepsAll | hypertemplate.py:447-452 | with `force_rebuild` every build is kept |
| Planner.CreatePageBuildsPlans | hypertemplate.py:420-452 | a successful plan is the required subset of one build per page, each as described above |

## Left out

- File system I/O is not modelled: `find_files`, reading content and mtimes, `save`, `run` and `process` (writing `processed`). The inventories of pages, outputs and templates are parameters, as sequences of file records.
- `textfmt` terminal styling, `eprint`, argument parsing and the printing of `warn` messages are not modelled. Warnings are returned as values: strays as a list, and unused fields as one `Unused` entry per expansion round, in the order of the rounds.
- Expander.ProcessHtml: within one round the source warns about unused fields in the iteration order of a Python set. The model keeps that round's fields as a set, so their order within the round is not modelled.
- Concurrency and the process exit status are outside the model.
- Expander.ProcessHtml: the source recursion is unbounded; the model takes a fuel bound and returns OutOfFuel when it runs out. `FuelMonotone` shows that extra fuel changes nothing once the expansion finishes.
- Tags.FindTagOf: requires a non-empty tag name that does not start with `/`. The only name the core uses is `--template`.
- Text.IsSpace: `\s`, `\w` and `str.strip` cover ASCII only (plus 0x1C-0x1F for whitespace); Unicode classes are not modelled.
- Resolver.SortByStart: `list.sort` is a library call. It is modelled as a stable insertion sort proved sorted and a permutation.
- Resolver.ProcessTemplateOf: a Blob template (no `content`, so the source raises) gives the TemplateNotDocument error. Unused-field warnings of an expansion that later fails are dropped.
- Errors: the split between `BuildError` and `DocumentError` and the exact message strings are not modelled. Each message is one error constructor; the page wrapping that `template_names` adds is `InPage`.
- Expander.DollarFields: the loop over `attr.items()` is modelled as a map comprehension. Attribute names are distinct, so iteration order cannot change the result.
- Planner.TemplatesUsed: the source iterates over the set of names. The model reads them in page order, which is the same because there is at most one name.
- Planner.NamesFrom: as written, the source reads only the first innermost usage's name (the source marks this line as broken). The model keeps that behaviour rather than guessing a fix.
- Files.File: `mtime` is an integer timestamp; float precision is not modelled.
