# Conflict flagger: a Dafny model of the reconciliation core

The system reconciles a cost budget written in the FIEBDC-3 (".bc3")
exchange format with the type catalogue of an IFC building model. This
project models its pure core and proves properties of the model.

- **Budget parser** (`Bc3Parser`, with proofs in `Bc3Properties` and
  `Bc3Records`). It makes one pass over the file's lines in file order and
  reads four record kinds:
  - `~V`, the version;
  - `~C`, a component;
  - `~X`, extended properties;
  - `~D`, a decomposition.

  It then links the decomposition edges into the elements.
- **Cascading matcher** (`Matcher`, with proofs in `MatcherProofs`). It
  matches IFC types to budget elements in a greedy, first-match-wins
  cascade: by tag, then by type GUID, then, optionally, by family and type
  name. It then partitions what is left into IFC-only and budget-only
  pairs and computes the match rate.
- **Comparator** (`Comparison`, with proofs in `ComparisonProofs`). It
  turns a match result into a typed, severity-tagged list of conflicts, in
  construction order, and the counters that go with it.
- **Phase presets** (`Phases`): the quick-check and full-analysis
  configurations that drive the comparator.
- **Ignore filter** (`IgnoreFilter`): the terms that keep views, rooms,
  openings and the like out of matching.
- **IFC helpers** (`Ifc`): splitting a Revit `Family:Type` name, and the two
  element lookups over already-extracted data.
- **Older checker** (`Fase1`). It reads a budget's `~C` and `~M` lines in
  two passes and classifies codes into two kinds of rows:
  - red rows: the code is on both sides but its unit or quantity differs;
  - yellow rows: the code is on one side only.

  Red rows come first, and codes ascend within each colour.
- **Test-data generator** (`Generator`): the four line edits used to build
  test budgets, plus the invariant that the content is always the lines
  joined by newlines. The edits are: remove elements, change a property,
  add an orphan element, change a description.

The supporting modules are:
- `Wrappers`: `Option`.
- `Text`: Python's `strip`, `split`, `join` and substring tests over
  `seq<char>`, and `lower` for ASCII and Latin-1 letters.
- `Numbers`: a restricted `int()`/`float()` reader and number renderings.
- `Assoc`: Python dicts as ordered association lists.
- `Lists`: filters and subsequences.
- `Sorting`: Python's string order and `sorted`.

Conventions of the model:
- Every dict is an ordered association list with unique keys. Python dicts
  iterate in insertion order, and reassigning a key keeps its position;
  the greedy matcher and the "last wins" indexes depend on both.
- Numbers are `real`, so every tolerance test is exact. Python's
  doubles can round a difference that sits on the tolerance to either
  side. Python's `float()` and `int()` are modelled by a restricted
  decimal reader: an optional sign, digits, and at most one point.
- File contents enter the model as a sequence of lines.

Where the code and the written design disagree, the model follows the
code:
- **Matching strategies.** The matcher has three strategies; there is no
  description-similarity strategy. `MatchMethod.Description` exists only
  so that the comparator's branch for it can be modelled, and
  `ComparisonProofs.MatcherYieldsNoCodeMismatch` shows that this branch
  never fires on the matcher's output.
- **Parser errors.** The parser never records an error. No statement in
  its `try` block raises on text input, so `errors` is always empty.
- **Comparator state.** A comparator is not stateless across calls. A
  phase configuration overwrites its tolerance and name switch for every
  later call (src/comparison/comparator.py:187-188). `Comparison.CompareWith`
  models this, and `ComparisonProofs.PhaseSettingsPersist` states it.
- **Property scope.** There is no property-scope setting, so none is
  modelled.

## Model

| member | source | states |
|---|---|---|
| Bc3Parser.MatchRecord | src/parsers/bc3_parser.py:111-116 | a record line is `~`, an upper-case letter, `|` and the record data |
| Bc3Parser.MatchRecordOf | src/parsers/bc3_parser.py:111-116 | every line of that shape without a newline is recognised, with its letter and the rest of the line as the data |
| Bc3Parser.CleanCode | src/parsers/bc3_parser.py:160-162 | a cleaned code, with trailing `#` and surrounding whitespace removed, is empty or a usable code |
| Bc3Parser.ParseComponent | src/parsers/bc3_parser.py:155-181 | a `~C` record yields no element exactly when it has fewer than four fields or its cleaned code is empty; otherwise the element has that code, the stripped unit and description, the price as `ParsePrice` reads it, and no properties, children, parent, type GUID or names |
| Bc3Parser.ParsePrice | src/parsers/bc3_parser.py:167-174 | an empty or unreadable price is 0.0; otherwise it is the number read with a decimal comma taken as a point |
| Bc3Parser.ChildQuantity | src/parsers/bc3_parser.py:264-272 | a missing or unreadable child quantity is 1.0; otherwise it is the number read with a decimal comma taken as a point |
| Bc3Parser.ParsePropertyValue | src/parsers/bc3_parser.py:224-237 | empty text gives None; text with `.` or `,` gives its decimal after comma-to-point; other text gives its integer; text that reads as neither stays text, and each outcome comes with the reason it was chosen |
| Bc3Parser.SetProperty | src/parsers/bc3_parser.py:205-220 | one `~X` key/value pair never changes an element's code, unit, description, children, parent or quantity |
| Bc3Parser.ApplyProperties | src/parsers/bc3_parser.py:203-222 | the pairs of an `~X` record together leave the same fields untouched |
| Bc3Parser.ReadChildren | src/parsers/bc3_parser.py:254-275 | every child read has a usable code, and there are never more children than tokens |
| Bc3Parser.LinkEdge | src/parsers/bc3_parser.py:285-289 | linking one edge keeps the set of element codes |
| Bc3Parser.LinkChildren | src/parsers/bc3_parser.py:285-289 | linking a child list keeps the set of element codes |
| Bc3Parser.LinkHierarchy | src/parsers/bc3_parser.py:280-289 | linking never adds or removes an element |
| Bc3Parser.GetTypesWithGuid | src/parsers/bc3_parser.py:291-300 | an entry is in the result if and only if it is an element with a non-empty type GUID; the result keeps element order (a subsequence), has one entry per such element (its length is their count), and its keys are unique when the elements' are |
| Bc3Parser.FilterGuid | src/parsers/bc3_parser.py:297-300 | the comprehension's filter is the element list filtered by a non-empty type GUID, in order, as many entries as such elements |
| Bc3Parser.FilterGuidUnique | src/parsers/bc3_parser.py:297-300 | filtering a list with unique codes leaves the codes unique, as the dictionary result requires |
| Bc3Properties.SetPropertyClean | src/parsers/bc3_parser.py:208-220 | property keys stay unique and non-empty and never become one of the four named-field keys |
| Bc3Properties.ApplyPropertiesClean | src/parsers/bc3_parser.py:203-222 | the same holds after all pairs of a record |
| Bc3Properties.PutSameCode | src/parsers/bc3_parser.py:122-124 | storing a fresh element under its own code keeps the element map keyed by usable codes, clean and unlinked |
| Bc3Properties.StepComponentInv | src/parsers/bc3_parser.py:121-124 | a `~C` record preserves the parser's state invariant |
| Bc3Properties.ComponentReplaces | src/parsers/bc3_parser.py:121-124 | a `~C` record with a usable code stores the fresh element under that code, replacing the earlier element and dropping its properties; every other code, the hierarchy and the version are unchanged |
| Bc3Properties.ComponentSkipped | src/parsers/bc3_parser.py:121-124 | a `~C` record without a usable code changes nothing |
| Bc3Properties.StepComponentLine | src/parsers/bc3_parser.py:106-124 | a `~C` file line, padded or not, replaces its code's element and leaves every other code alone |
| Bc3Properties.StepExtendedInv | src/parsers/bc3_parser.py:183-222 | an `~X` record preserves the parser's state invariant |
| Bc3Properties.PutHierarchy | src/parsers/bc3_parser.py:277-278 | recording a non-empty child list of a usable parent keeps the hierarchy well formed |
| Bc3Properties.StepDecompositionInv | src/parsers/bc3_parser.py:239-278 | a `~D` record preserves the parser's state invariant |
| Bc3Properties.ApplyRecordInv | src/parsers/bc3_parser.py:118-128 | every recognised record preserves the invariant |
| Bc3Properties.StepInv | src/parsers/bc3_parser.py:106-130 | every line, blank, unrecognised or a record, preserves the invariant |
| Bc3Properties.RunInv | src/parsers/bc3_parser.py:106-130 | after any lines, elements are keyed by their own usable codes with clean properties and nothing linked, and hierarchy parents are unique usable codes with non-empty child lists |
| Bc3Properties.AppendChildSpec | src/parsers/bc3_parser.py:284-286 | appending an edge extends the parent's children by that edge and changes nothing else |
| Bc3Properties.SetParentSpec | src/parsers/bc3_parser.py:287-289 | a known child gets the parent and quantity of the edge; other elements keep theirs |
| Bc3Properties.LinkEdgeSpec | src/parsers/bc3_parser.py:285-289 | the combined effect of one edge on every element |
| Bc3Properties.LinkChildrenSpec | src/parsers/bc3_parser.py:285-289 | the effect of a whole child list: the parent gains the list in order; each listed element takes the last edge naming it |
| Bc3Properties.LinkHierarchySpec | src/parsers/bc3_parser.py:280-289 | the effect of linking every hierarchy entry whose parent is an element, in hierarchy order |
| Bc3Properties.ParseSpec | src/parsers/bc3_parser.py:104-140 | after parsing: elements are keyed by their own codes; each element's children are the list recorded for it; its parent and quantity come from the last `~D` entry that lists it under a parent that is an element, and stay unset otherwise; no error is recorded |
| Bc3Records.ParsePriceFixed | src/parsers/bc3_parser.py:167-174 | a price written with a decimal point or a decimal comma reads back as its exact value |
| Bc3Records.ParseVersionFields | src/parsers/bc3_parser.py:142-147 | the version is the second field, or the first when the second is empty or missing |
| Bc3Records.ParseComponentFields | src/parsers/bc3_parser.py:149-181 | a written component record reads back as a fresh element with the written code, unit, description and price |
| Bc3Records.ApplyPropertiesSpec | src/parsers/bc3_parser.py:203-222 | each named field and each property takes the last value given for its key; other keys keep their earlier values |
| Bc3Records.ApplyPropertiesNamed | src/parsers/bc3_parser.py:203-222 | a named field (type GUID, GUID, family name, type name) ends with the last value given for its key, or keeps its earlier value |
| Bc3Records.ApplyPropertiesKey | src/parsers/bc3_parser.py:203-222 | an ordinary property key ends with the parsed last value given for it, or keeps its earlier value |
| Bc3Records.PairsRoundTrip | src/parsers/bc3_parser.py:201-206 | key/value pairs written as backslash-separated tokens are read back as the same pairs |
| Bc3Records.ParseExtendedFields | src/parsers/bc3_parser.py:183-222 | an `~X` record for a known code sets the named fields and properties to the last written values; one for an unknown code changes nothing |
| Bc3Records.ChildQuantityFixed | src/parsers/bc3_parser.py:264-272 | a written child quantity reads back as its exact value |
| Bc3Records.ReadChildrenRoundTrip | src/parsers/bc3_parser.py:254-275 | written `code\factor\quantity` triples read back as exactly the written edges |
| Bc3Records.ParseDecompositionFields | src/parsers/bc3_parser.py:239-278 | a written `~D` record records exactly the written edges under the parent, with its `#` removed |
| Bc3Records.ParsePropertyValueNumbers | src/parsers/bc3_parser.py:224-237 | integer text is stored as that integer; fixed-point text, with a point or a comma, is stored as its exact value |
| Matcher.PairCode | src/matching/matcher.py:53-62 | the code is the budget code; without a budget element, a non-empty type tag; failing that, a non-empty instance tag; otherwise none |
| Matcher.PairName | src/matching/matcher.py:64-73 | the name is the budget description; without a budget element, the type name; without a type either, the instance name; with none of the three, "Unknown" |
| Matcher.MatchRate | src/matching/matcher.py:92-99 | the rate is 0 when both totals are 0, else twice the matches over the totals, as a percentage; it is never negative |
| Matcher.Summary | src/matching/matcher.py:101-110 | the summary copies the totals and the three list lengths and carries the match rate |
| Matcher.IfcOnlyPairs | src/matching/matcher.py:199-207 | the IFC-only pairs are exactly the types whose global id was not matched |
| Matcher.IfcOnlyPairsOrder | src/matching/matcher.py:199-207 | the IFC-only pairs follow type order, one per type whose global id was not matched |
| Matcher.Bc3OnlyPairs | src/matching/matcher.py:209-220 | the budget-only pairs are exactly the unmatched elements that have a unit, a type GUID or properties |
| Matcher.Bc3OnlyPairsOrder | src/matching/matcher.py:209-220 | the budget-only pairs follow element order, one per unmatched element with a unit, a type GUID or properties |
| Matcher.Match | src/matching/matcher.py:222-231 | the IFC total is the number of types; the budget total counts only elements with a unit, type GUID or properties; the match count is the number of matched pairs; no error is recorded |
| Matcher.MatchedByMethod | src/matching/matcher.py:284-286 | the result is the matched pairs of that method, in matched order, as many as there are such pairs |
| Matcher.HighConfidenceMatches | src/matching/matcher.py:288-290 | the result is the matched pairs at or above the threshold, in matched order, as many as there are such pairs |
| MatcherProofs.TagPairs | src/matching/matcher.py:155-169 | the tag strategy makes one pair per tag entry whose tag is a budget code, with method tag, confidence 1.0 and the tag as key |
| MatcherProofs.TagPassAppends | src/matching/matcher.py:155-169 | the tag strategy appends exactly those pairs, in tag-index order |
| MatcherProofs.TagStepInv | src/matching/matcher.py:157-169 | one tag entry over an unused type id and code adds at most a justified pair that uses them |
| MatcherProofs.TagPassInv | src/matching/matcher.py:155-169 | the tag strategy only adds justified pairs over unused type ids and codes |
| MatcherProofs.GuidIndexLastWins | src/matching/matcher.py:149-153 | a GUID lookup finds the last element, in element order, that carries that type GUID |
| MatcherProofs.GuidPassInv | src/matching/matcher.py:171-189 | the GUID strategy only adds justified pairs over unused type ids and codes |
| MatcherProofs.NameIndexSound | src/matching/matcher.py:246-253 | every name-index entry is an unmatched element whose lower-cased `family:type` key is the entry's key |
| MatcherProofs.NameIndexLast | src/matching/matcher.py:247-253 | the index answers with the last unmatched element having the key, or with what it held before when there is none |
| MatcherProofs.NameIndexLastWins | src/matching/matcher.py:246-253 | a name lookup finds the last unmatched element, in element order, whose key is the looked-up key, and nothing when there is none |
| MatcherProofs.NamePassInv | src/matching/matcher.py:255-282 | the name strategy only adds justified pairs over unused type ids and codes |
| MatcherProofs.CascadeInv | src/matching/matcher.py:139-197 | whatever strategies are enabled, the final matcher state satisfies the invariant |
| MatcherProofs.MatchedPairsJustified | src/matching/matcher.py:155-282 | every matched pair carries its strategy's evidence (tag and code, type GUID, or name key, with confidence 1.0, 1.0 or 0.8), and no type id or budget code is used twice |
| MatcherProofs.IfcPartition | src/matching/matcher.py:199-207 | every type is in exactly one of a matched pair and an IFC-only pair, and every IFC-only pair is one of the types |
| MatcherProofs.Bc3Partition | src/matching/matcher.py:209-220 | every element with a unit, type GUID or properties is in exactly one of a matched pair and a budget-only pair, and every budget-only pair is such an element |
| MatcherProofs.CascadeOrder | src/matching/matcher.py:155-197 | the matched list is the tag pairs, then GUID pairs, then name pairs, and has no name pair when name matching is off |
| MatcherProofs.HighConfidenceIsTagOrGuid | src/matching/matcher.py:288-290 | with the default threshold 0.9, the high-confidence matches are exactly the tag and GUID matches |
| MatcherProofs.MatchRateAbove100 | src/matching/matcher.py:222-231 | the rate is not bounded by 100: a tag match to an element with no unit, GUID or properties gives 200% |
| Comparison.Effective | src/comparison/comparator.py:182-188 | with a phase configuration, tolerance, names switch and property switch come from it; without one, the comparator's own values are used and properties are checked |
| Comparison.PropValue | src/comparison/comparator.py:331-332 | a missing key reads as None; a present key reads as its stored value |
| Comparison.ValuesEqual | src/comparison/comparator.py:437-465 | two Nones are equal; one None is unequal; two values that both read as numbers, a bool as 1 or 0, are equal exactly when within the tolerance; otherwise they are equal exactly when both have a text, a bool's being `True` or `False`, and the texts agree once stripped and lower-cased |
| Comparison.StringsSimilar | src/comparison/comparator.py:467-478 | two names are similar exactly when both are non-empty and, lower-cased, they have the same whitespace-separated words |
| Comparison.CodeCheck | src/comparison/comparator.py:274-288 | there is a code conflict (ERROR) exactly when the pair was found by description and `tag or "?"` differs from `code or "?"` |
| Comparison.QuantityCheck | src/comparison/comparator.py:290-310 | there is a quantity conflict (ERROR) exactly when both quantities are positive, the unit counts instances, and the difference, in exact arithmetic, exceeds the tolerance |
| Comparison.NameCheck | src/comparison/comparator.py:407-433 | there is a name conflict (WARNING) for a field exactly when both sides set it and the names are not similar |
| Comparison.CompareNames | src/comparison/comparator.py:397-435 | there are at most two name conflicts per pair, all WARNING name mismatches under the pair's code |
| Comparison.CuratedConflict | src/comparison/comparator.py:339-371 | absent on the budget side gives an INFO missing-in-budget conflict; absent on the IFC side gives INFO missing-in-IFC; both present gives an ERROR mismatch exactly when the values are unequal |
| Comparison.CuratedChecks | src/comparison/comparator.py:329-371 | the count of compared pairs never exceeds the curated list, and there are never more conflicts than that count |
| Comparison.SharedChecks | src/comparison/comparator.py:373-393 | properties shared but not curated produce only ERROR mismatches, at most one per compared key |
| Comparison.CuratedChecksCount | src/comparison/comparator.py:329-337 | the curated count is the number of curated key pairs with a value on the budget side or on the IFC side |
| Comparison.SharedChecksCount | src/comparison/comparator.py:373-381 | the shared count is the number of budget properties whose key is also on the type and is not curated |
| Comparison.PropertyChecksCount | src/comparison/comparator.py:325-393 | the properties compared for a pair are those two counts added |
| Comparison.ComparePairCompared | src/comparison/comparator.py:259-395 | a pair counts no property when a side is missing or properties are off, and otherwise the curated pairs present on either side plus the shared non-curated keys |
| Comparison.PropertiesComparedSum | src/comparison/comparator.py:216-221 | the running total of properties compared is the sum of every matched pair's own count |
| Comparison.PropertyChecks | src/comparison/comparator.py:329-393 | the curated and shared-key checks together only raise property conflicts |
| Comparison.ComparePair | src/comparison/comparator.py:249-395 | a pair lacking a side yields nothing; with properties off, nothing is counted as compared and no property conflict appears; with names off, no name conflict appears; a pair never yields a missing or unit conflict |
| Comparison.MissingConflicts | src/comparison/comparator.py:190-213 | there is exactly one WARNING per missing pair, in order, with the pair's code and name |
| Comparison.Compare | src/comparison/comparator.py:162-247 | the conflicts are the IFC-only warnings, then the budget-only warnings, then each matched pair's conflicts; each counter equals the number of conflicts of its type; the properties-compared total is the sum over the matched pairs of each pair's count as `ComparePairCompared` states it |
| Comparison.CompareWith | src/comparison/comparator.py:182-188 | a call with a configuration leaves the comparator holding that configuration's tolerance and name switch; a call without one leaves it unchanged |
| Comparison.ConflictsByType | src/comparison/comparator.py:99-101 | the result is the conflicts of that type, in order, as many as the type counter counts |
| Comparison.ConflictsBySeverity | src/comparison/comparator.py:103-105 | the result is the conflicts of that severity, in order, as many as there are such conflicts |
| Comparison.ConflictsForCode | src/comparison/comparator.py:107-109 | the result is the conflicts filed under that code, in order, as many as there are such conflicts |
| Comparison.Summary | src/comparison/comparator.py:111-128 | errors and warnings are the numbers of ERROR and WARNING conflicts, and together are at most the total |
| Comparison.SeverityCountsBound | src/comparison/comparator.py:114-116 | the error and warning conflicts together never outnumber the conflicts |
| ComparisonProofs.ValuesEqualReflexive | src/comparison/comparator.py:437-465 | with a non-negative tolerance every value equals itself |
| ComparisonProofs.ValuesEqualSymmetric | src/comparison/comparator.py:437-465 | the order of the two values does not matter |
| ComparisonProofs.IntAgainstWordText | src/comparison/comparator.py:454-465 | an integer never equals a text that does not read as a number, in either order, because the integer's own text reads as one |
| ComparisonProofs.BoolAsNumber | src/comparison/comparator.py:454-458 | `True` equals 1 and `False` equals 0.0; `True` equals 0 only under a tolerance of at least 1 |
| ComparisonProofs.BoolAgainstText | src/comparison/comparator.py:454-465 | against a text that does not read as a number, a bool is equal, in either order, exactly when the text is `true` or `false` to match, case and padding aside |
| ComparisonProofs.ValuesEqualMonotone | src/comparison/comparator.py:455-458 | a wider tolerance accepts everything a narrower one accepts |
| ComparisonProofs.StringsSimilarSymmetric | src/comparison/comparator.py:467-478 | name similarity is symmetric |
| ComparisonProofs.StringsSimilarIgnoresCase | src/comparison/comparator.py:474-478 | a name is similar to its lower-cased form |
| ComparisonProofs.StringsSimilarDoubleBlank | src/comparison/comparator.py:474-478 | a doubled blank inside a name never makes a name conflict |
| ComparisonProofs.StringsSimilarPadded | src/comparison/comparator.py:474-478 | blanks around a name never make a name conflict |
| Text.JoinWordsInjective | src/comparison/comparator.py:474-478 | joining two word lists with single blanks gives the same text only when the lists are equal |
| ComparisonProofs.PairsConflictsTypes | src/comparison/comparator.py:215-226 | matched pairs never produce missing-counterpart or unit conflicts |
| ComparisonProofs.MissingCountersMatchConflicts | src/comparison/comparator.py:228-238 | the missing counters equal the number of missing conflicts of each kind, and the unit counter is always 0 |
| ComparisonProofs.PairsConflictsSwitches | src/comparison/comparator.py:316-323 | with properties off, no property conflict appears and nothing is compared; with names off, no name conflict appears |
| ComparisonProofs.NoPropertyConflictsWhenOff | src/comparison/comparator.py:321-323 | without property checks no property conflict is reported |
| ComparisonProofs.NoNameConflictsWhenOff | src/comparison/comparator.py:316-319 | without name comparison no name conflict is reported |
| ComparisonProofs.CodeMismatchNeedsDescription | src/comparison/comparator.py:275-288 | only a pair found by description can yield a code conflict |
| ComparisonProofs.MatcherYieldsNoCodeMismatch | src/matching/matcher.py:18-23 | the matcher never matches by description, so comparing its result reports no code conflict |
| ComparisonProofs.QuantitySubseq | src/comparison/comparator.py:300-310 | a quantity conflict found under a tolerance is found under any smaller one |
| ComparisonProofs.BasicSubseq | src/comparison/comparator.py:274-319 | the checks before the property checks find no fewer conflicts under more thorough settings |
| ComparisonProofs.CuratedConflictSubseq | src/comparison/comparator.py:339-371 | a curated conflict found under a wider tolerance is found under a narrower one |
| ComparisonProofs.CuratedSubseq | src/comparison/comparator.py:330-371 | the curated checks count the same pairs under any tolerance and find a subsequence under a wider one |
| ComparisonProofs.SharedSubseq | src/comparison/comparator.py:374-393 | the shared-key checks count the same keys and find a subsequence under a wider tolerance |
| ComparisonProofs.PropertySubseq | src/comparison/comparator.py:329-393 | the property checks under a wider tolerance find a subsequence of those under a narrower one |
| ComparisonProofs.PairSubseq | src/comparison/comparator.py:249-395 | for one pair, less thorough settings find a subsequence of the conflicts |
| ComparisonProofs.PairsSubseq | src/comparison/comparator.py:217-226 | the same holds pair after pair |
| ComparisonProofs.FewerChecksFewerConflicts | src/comparison/comparator.py:162-247 | less thorough settings report a subsequence of the conflicts of more thorough ones: nothing new, nothing reordered |
| ComparisonProofs.QuickCheckWithinFullAnalysis | src/phases/config.py:127-180 | every conflict of the quick check is reported by the full analysis too, in the same order |
| ComparisonProofs.PhaseSettingsPersist | src/comparison/comparator.py:184-188 | after a call with a configuration, a call without one checks properties but keeps that configuration's tolerance and name switch |
| ComparisonProofs.MissingCodesAreConflictCodes | src/comparison/comparator.py:191-213 | the codes collected for missing pairs are exactly the non-empty codes on their conflicts |
| ComparisonProofs.PairConflictCodes | src/comparison/comparator.py:223-224 | a pair's conflicts are filed under the pair's code when the budget code is non-empty |
| ComparisonProofs.PairCodesAreConflictCodes | src/comparison/comparator.py:217-226 | the codes collected for conflicting pairs are exactly the non-empty codes on their conflicts |
| ComparisonProofs.TotalWithConflictsCountsCodes | src/comparison/comparator.py:180-245 | `total_with_conflicts` is the number of distinct non-empty codes on the reported conflicts |
| Phases.MakeConfig | src/phases/config.py:96-99 | an empty sheet list becomes the default one; a non-empty one is kept |
| Phases.MakeConfigIdempotent | src/phases/config.py:96-99 | running the post-construction step twice equals running it once |
| Phases.DefaultConfig | src/phases/config.py:76-94 | fields not given take their declared defaults: codes, units and quantities on; properties and names off; tolerance 0.1 |
| Phases.GetPhaseConfig | src/phases/config.py:197-212 | every phase has an entry; the quick check has properties and names off with tolerance 0.1; the full analysis has both on with tolerance 0.01 |
| Phases.AvailablePhases | src/phases/config.py:215-225 | the result is one (phase, name, description) per entry, in order |
| Phases.AvailablePhasesComplete | src/phases/config.py:215-225 | every phase appears in the list with its configured name |
| IgnoreFilter.CheckText | src/matching/filters.py:74-79 | the searched text is the lower-cased code, a blank, then the lower-cased description, each only when set |
| IgnoreFilter.AnyTermIn | src/matching/filters.py:89 | true exactly when some lower-cased term occurs in the text |
| IgnoreFilter.IsIgnored | src/matching/filters.py:55-89 | a blank text is never ignored; otherwise an element is ignored exactly when a standard or custom term occurs in the text |
| IgnoreFilter.CodeFor | src/matching/filters.py:112 | an element without a code attribute is searched under its key |
| IgnoreFilter.DescriptionFor | src/matching/filters.py:113 | an element without a description attribute has none |
| IgnoreFilter.FilterElements | src/matching/filters.py:92-118 | the result is exactly the entries not ignored, unchanged and in order |
| IgnoreFilter.IgnoredElements | src/matching/filters.py:121-149 | the result is exactly the ignored entries, unchanged and in order |
| IgnoreFilter.FilterPartition | src/matching/filters.py:110-149 | the kept and ignored entries are disjoint, together are the input, and their sizes add up |
| IgnoreFilter.CustomTermsOnlyAdd | src/matching/filters.py:85-89 | extra custom terms never turn an ignored element into a kept one |
| IgnoreFilter.IgnoreCaseInsensitive | src/matching/filters.py:76-79 | the case of code and description does not change the outcome |
| IgnoreFilter.ProjectInfoIgnored | src/matching/filters.py:38-40 | a description "PROJECT INFO" is ignored |
| IgnoreFilter.CodeIsSearched | src/matching/filters.py:76-77 | a code mentioning a sheet is ignored despite an ordinary description |
| Ifc.ParseTypeName | src/parsers/ifc_parser.py:286-300 | an empty name gives neither part; a name without a colon is all family, unstripped; otherwise there is a type part and the family part has no colon |
| Ifc.FirstColonSplit | src/parsers/ifc_parser.py:296-297 | a name with a colon is a colon-free part, the colon at its first position, and the rest |
| Ifc.ParseTypeNameSplit | src/parsers/ifc_parser.py:296-298 | a colon-free family, a colon and any type split back into the stripped family and the stripped type |
| Ifc.ParseTypeNameJoin | src/parsers/ifc_parser.py:296-298 | an unpadded, colon-free family joined to an unpadded type by `:` splits back into the two |
| Ifc.GetElementsByTypeTag | src/parsers/ifc_parser.py:397-406 | an unknown tag gives nothing; a known one gives exactly the instances of that type, in order |
| Ifc.GetElementsByClass | src/parsers/ifc_parser.py:408-413 | the result is exactly the instances whose class starts with the query, in order |
| Ifc.ClassPrefixSelects | src/parsers/ifc_parser.py:412 | "IfcWall" selects an "IfcWallStandardCase" instance |
| Sorting.SortAscending | src/fase1_checker.py:90 | `sorted` gives an ascending list in Python's string order |
| Sorting.SortDistinct | src/fase1_checker.py:90 | sorting distinct codes gives a strictly ascending list of the same codes |
| Fase1.ComponentLineShape | src/fase1_checker.py:15-22 | a line is a component line exactly when, stripped, it starts with `~C|` and has more than two fields; its code is field 1 without backslashes, stripped, and has no backslash; its unit is field 2 stripped; its description is field 3 stripped, or the default when field 3 is missing; its quantity starts at 0 |
| Fase1.ComponentLineRoundTrip | src/fase1_checker.py:15-22 | a written `~C|code|unit|description` line reads back as that code, unit and description with quantity 0 |
| Fase1.ReadComponents | src/fase1_checker.py:14-22 | the first pass keeps the codes unique |
| Fase1.LastComponent | src/fase1_checker.py:14-22 | the entry for a code comes from the last component line for it, and is absent when there is none |
| Fase1.PutAllLastWins | src/fase1_checker.py:22 | a later duplicate code overwrites the earlier entry |
| Fase1.LastNumber | src/fase1_checker.py:30-36 | the number found is that of the last field that reads as a number, and there is none when no field does |
| Fase1.MeasurementLine | src/fase1_checker.py:25-32 | a measurement line starts with `~M|`, has more than two fields and some numeric field; its code is the stripped field 1 |
| Fase1.ApplyMeasurement | src/fase1_checker.py:29-33 | a measurement grows only the entry of its own code, and only when that code is known |
| Fase1.ApplyAllSums | src/fase1_checker.py:24-36 | after all measurements, each entry's quantity has grown by the sum of the measurements of its code |
| Fase1.AddMeasurements | src/fase1_checker.py:24-36 | the second pass adds no code and removes none |
| Fase1.AddMeasurementsSums | src/fase1_checker.py:24-36 | a known code's quantity grows by the sum of its measurements; an unknown code stays absent |
| Fase1.ParseBudget | src/fase1_checker.py:9-37 | the budget read has unique codes |
| Fase1.ParseBudgetEntry | src/fase1_checker.py:9-37 | a code's entry is the last component line for it, with quantity equal to the sum of its measurements; there is no entry without a component line |
| Fase1.DiscrepancyText | src/fase1_checker.py:98-108 | the text names the unit difference before the quantity difference, joined by ", " |
| Fase1.RowFor | src/fase1_checker.py:90-136 | a row for a code carries that code |
| Fase1.RowForClassifies | src/fase1_checker.py:90-136 | a code gets a row exactly when it is on some side and does not agree; the row is red exactly when the code is on both sides; one-sided rows say "No pressupostat" or "No modelat" |
| Fase1.RowForValues | src/fase1_checker.py:105-135 | row values come from the two sides, and a red row's text is the discrepancy text |
| Fase1.Rows | src/fase1_checker.py:90-136 | the rows of a code list are exactly the rows of its codes |
| Fase1.SortedCodes | src/fase1_checker.py:90 | the sorted codes are the same codes, strictly ascending when distinct |
| Fase1.SharedCodes | src/fase1_checker.py:84-90 | the shared codes are exactly those on both sides, ascending |
| Fase1.ModelOnlyCodes | src/fase1_checker.py:115 | the model-only codes are exactly those of the model alone, ascending |
| Fase1.BudgetOnlyCodes | src/fase1_checker.py:127 | the budget-only codes are exactly those of the budget alone, ascending |
| Fase1.RedFirst | src/fase1_checker.py:139 | ordering by colour keeps exactly the same rows |
| Fase1.RedFirstOrdered | src/fase1_checker.py:138-139 | no red row follows a yellow one, and each colour keeps its relative order |
| Fase1.RowsAscending | src/fase1_checker.py:90-136 | the rows of an ascending code list have ascending codes |
| Fase1.GroupColours | src/fase1_checker.py:111-135 | shared codes give only red rows and one-sided codes only yellow rows |
| Fase1.ReportInGroupOrder | src/fase1_checker.py:84-139 | the report is the red rows in code order followed by the yellow rows, model-only codes first, each group in code order |
| Fase1.ReportCoverage | src/fase1_checker.py:84-139 | every row a code calls for is in the report, and every row in the report is the one its code calls for |
| Fase1.ReportCodesDistinct | src/fase1_checker.py:84-136 | no code appears in two rows |
| Fase1.ToleranceInclusive | src/fase1_checker.py:95-96 | in exact arithmetic, a quantity difference equal to the tolerance is not a discrepancy |
| Generator.FromContent | src/test_data_generator.py:27-28 | the lines are the content split at newlines; content and lines start consistent |
| Generator.WithLines | src/test_data_generator.py:59-60 | new lines come with content rebuilt as their newline join |
| Generator.RecordCodeShape | src/test_data_generator.py:47-49 | a line yields a code only when it is `~`, a capital, `|`, a non-empty code without `|` or `#`, an optional `#`, and `|` |
| Generator.RecordCodeOf | src/test_data_generator.py:47-49 | every line of that shape yields its code, with or without the `#` |
| Generator.RemoveFrom | src/test_data_generator.py:45-57 | no record of a listed code survives |
| Generator.RemoveElements | src/test_data_generator.py:34-61 | no record of a listed code survives, and what is left keeps its original order |
| Generator.RemoveElementsMatchesSpec | src/test_data_generator.py:41-57 | a line is kept exactly when the last record line up to it is not of a listed code |
| Generator.RemoveNothing | src/test_data_generator.py:45-57 | removing no codes keeps every line |
| Generator.HeaderKept | src/test_data_generator.py:42-57 | the lines before the first record line are always kept |
| Generator.RemoveKeepsOrder | src/test_data_generator.py:45-57 | the result is the input with lines left out |
| Generator.RemoveAppendedRecord | src/test_data_generator.py:45-57 | a record line appended for a listed code is removed again and nothing else changes |
| Generator.SubPropertyAbsent | src/test_data_generator.py:76-78 | a line in which the name never occurs followed by a backslash is unchanged |
| Generator.SubPropertyAt | src/test_data_generator.py:76-78 | when the line starts with the name and a backslash, the value up to the next backslash is replaced and the rest is treated the same way |
| Generator.SubPropertyFirst | src/test_data_generator.py:76-78 | the value after the first occurrence of the name is replaced and the text before it is kept |
| Generator.ModifyProperty | src/test_data_generator.py:72-79 | only the code's `~X` lines change; the count of lines is kept |
| Generator.ModifyFirstProperty | src/test_data_generator.py:74-78 | on a `~X` line whose first property is the name, its value becomes the new one |
| Generator.ChangeDescription | src/test_data_generator.py:108-115 | only the code's `~C` lines with at least four fields change; the count of lines is kept |
| Generator.RedescribedFields | src/test_data_generator.py:111-114 | a rewritten line has the same fields except the fourth, which is the new description |
| Generator.RedescribedIdempotent | src/test_data_generator.py:110-114 | setting the same description twice equals setting it once |
| Generator.AddOrphan | src/test_data_generator.py:95-96 | exactly one line, the orphan line, is appended after the unchanged existing lines |
| Generator.OrphanRecordCode | src/test_data_generator.py:95 | the orphan line is a record line of its own code |
| Generator.OrphanFields | src/test_data_generator.py:95 | the orphan line's fields are `~C`, code, unit, description, price, `999999`, `0` and an empty last field |
| Generator.RemoveOrphan | src/test_data_generator.py:85-98 | removing an added orphan's code undoes the addition |
| Generator.Apply | src/test_data_generator.py:34-119 | after every edit the content is the newline join of the lines; removal keeps a subsequence, the line-wise edits keep the count, and adding appends one line |
| Generator.ApplyAllConsistent | src/test_data_generator.py:59-118 | content and lines stay consistent across any sequence of edits |

## Left out

- File reading, latin-1 decoding, the missing-file error, and `save`: files enter the model as sequences of lines or as text.
- The IFC extraction through ifcopenshell: `IFCParser.parse` and its helpers, and `parse_ifc` in the older checker. The model takes the extracted catalogue as input.
- `IFCModifier` and the `create_*` scenario drivers of the test-data generator: they call ifcopenshell or the file system.
- The GUI, the command line, report rendering (Excel and JSON), packaging, and the pandas-based legacy code: these are presentation and I/O.
- Python's full `float()`/`int()` grammar (exponents, `inf`, `nan`, underscores): the reader accepts a sign, digits and one point. Texts using the rest of the grammar read as non-numbers in the model. Python also accepts non-ASCII Unicode decimal digits (fullwidth '５', Arabic-Indic digits and the like); `PyFloat` and `ParseInt` know only '0'-'9', so such texts read as non-numbers too.
- The free-text `message` of a conflict, `Conflict.__str__`, and the text of matcher and comparator errors.
- Integers beyond the range of a double: `float()` raises `OverflowError` on an integer of more than about 309 digits, and the handler in `Comparator.compare` (src/comparison/comparator.py:217-226) then drops every conflict of that pair and records an error. The model reads every integer exactly, so it keeps those conflicts, and its error list is always empty.
- Comparison.ValuesEqual: compares numbers exactly. Python subtracts doubles, so a difference that sits on the tolerance may land on either side (`abs(1.1 - 1.0) <= 0.1` is false in Python).
- Comparison.QuantityCheck: tests the difference against the tolerance exactly, with the same boundary caveat as `ValuesEqual`.
- Fase1.ToleranceInclusive: holds in exact arithmetic. With doubles, a difference written equal to the tolerance can round above it.
- Comparison.ValuesEqual: a real number has no text in the model. Python would compare `str(x)` when the other side does not read as a number; that text reads as a number itself, so it never matches.
- Text.Lower: lower-cases ASCII and Latin-1 letters only. Other cased characters stay as they are, and lowerings that change the length, such as that of `İ`, are not modelled.
- `get_error_conflicts` and `get_warning_conflicts`: each is `ConflictsBySeverity` with a fixed severity.
- The description-similarity matcher, `normalize_description`, `calculate_similarity`, `property_list` and `SPATIAL_PROPERTIES`: the tests mention them, but they are not in the matcher, comparator or configuration code.
- `Matcher.Summary` keeps the rate as a number; the `.1f` percentage formatting is left out.
- The `.2f` value columns of the older checker: the rows carry the quantity and unit instead of the formatted text.
- The Excel part of the older checker (lines 141-168).
- `Generator.AddOrphan` takes the price as the text `str(price)` would produce, because Python's float rendering is left out.
- `Generator.ModifyProperty` treats the new value literally, because `re.sub` would interpret backslash escapes and group references written into it.
- `Fase1.MeasurementLine` reads lines without terminators. `readlines` keeps each line's newline, but the newline changes neither the `~M|` test nor the number read, since `float()` ignores surrounding whitespace.
