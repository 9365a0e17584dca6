# Lab-report pipeline of longevity-os, in Dafny

This project models the data-handling core of the longevity-os dashboard. That core is everything that runs between an uploaded lab table and what the dashboard shows:

- **Marker ids.** A column or row label is normalised: it is lower-cased and stripped to `[a-z0-9]`. An ordered chain of substring tests then maps it to one of thirteen canonical marker ids (`normalizeKey`, `mapKeyToId`).
- **Extraction.** The upload callback decides between a *wide* table (one marker per column) and a *vertical* one (one marker per row). It collects the marker values, the chronological age and the patient's name and gender. It then builds the ten PhenoAge inputs with JavaScript `||` defaulting.
- **Outliers.** `getOutliers` classifies each marker red, yellow or green against a range table and drops the green ones.
- **Biomarker card.** The card has its own, different, status rule. It also computes the slider position, splits a label such as `C-Reactive Protein (hs-CRP)` into a main label and a sub-label, and falls back to a fixed protocol record.
- **Protocol engine.** A stateful engine loads a symptom table and a trial table once. It matches a marker label against them by normalised substring containment.
- **Dashboard grid.** The grid keeps the markers that have a range entry and groups them into sections by category.

## How the model is built

- **JavaScript objects.** A JS object used as a dictionary is an ordered association list, `JsRecord.Record`. Assigning to a present key keeps its position; a new key is appended. This is the enumeration order that `Object.keys` and `Object.entries` give for the non-index keys the program uses.
- **Shared helpers.**
  - `Array.prototype.find` becomes `JsArray.FindFirst`.
  - `map(...).filter(Boolean)` becomes `JsArray.MapNonNull`.
  - `includes` becomes `JsText.Contains`.
- **Numbers** are `real`.
- **Stateful parts are imperative Dafny.**
  - The upload callback's loops are the methods `LabExtract.CollectWide`, `CollectRow`, `CollectVertical` and `Extract`.
  - The grid's in-place grouping is the method `DashboardGrid.GroupByCategory`.
  - The engine is the class `ProtocolEngine.Engine`.
- **Proved against specification functions.** Each of those methods is proved equal to a specification function on values: `ApplyAll` of a sequence of writes, `ExtractSpec` or `Group`. The source's promises are then proved about those functions as lemmas.
- **Inputs.** The parsed CSV rows, the range table and the engine's two tables are inputs, since their contents are data.

## Model

| member | source | states |
|---|---|---|
| JsText.Normalize | src/app/page.tsx:20 | the normal form holds only `a-z` and `0-9` and is no longer than the label |
| JsText.NormalizeIdempotent | src/app/page.tsx:20 | normalising twice is normalising once |
| JsText.NormalizeConcat | src/app/page.tsx:20 | the normal form of a concatenation is the concatenation of the normal forms |
| JsText.NormalizeIgnoresCase | src/utils/protocolEngine.ts:72 | lower-casing a label first does not change its normal form |
| JsText.NormalizeIgnoresPunctuation | src/utils/protocolEngine.ts:72 | deleting a character that the strip removes does not change the normal form |
| JsText.MissingCharExcludes | src/app/page.tsx:26-50 | a label lacking a character of a test string does not contain it |
| MarkerIds.MapKeyToId | src/app/page.tsx:23-53 | the id is null or one of the thirteen canonical ids, and "age" only for the normal forms "age" and "chronologicalage" |
| MarkerIds.IdOfNormalForm | src/app/page.tsx:26-52 | the same two facts for the chain of tests on a normal form |
| MarkerIds.ByRulesIsFirstFiring | src/app/page.tsx:26-52 | the rule table yields the id of the first rule in source order that fires, and null when none fires |
| MarkerIds.MapKeyToIdFollowsRules | src/app/page.tsx:23-53 | for every label the if-chain gives the id of the first firing rule of the table |
| MarkerIds.MapKeyToIdOfNormalForm | src/app/page.tsx:24 | the id depends only on the label's normal form |
| MarkerIds.PercentSignNeverSurvives | src/app/page.tsx:43 | no normal form contains "%", so that alternative of the lymphocyte rule never passes |
| MarkerIds.AgeHasNoMarkerPart | src/app/page.tsx:26-47 | "age" contains no substring the earlier tests look for |
| MarkerIds.ChronologicalAgeHasNoMarkerPart | src/app/page.tsx:26-47 | "chronologicalage" contains no substring the earlier tests look for |
| MarkerIds.AgeTestReached | src/app/page.tsx:26-50 | a normal form "age" or "chronologicalage" that passes none of the earlier tests maps to "age" |
| MarkerIds.AgeOnlyForExactLabels | src/app/page.tsx:50 | a label maps to "age" if and only if its normal form is "age" or "chronologicalage" |
| JsRecord.Put | src/app/page.tsx:103 | assignment keeps an existing key's position or appends a new key, sets that key and no other, and keeps keys distinct |
| JsRecord.PutPut | src/app/page.tsx:103 | a second write to a key replaces the first at the first write's position |
| JsRecord.FirstOccurrences | src/components/dashboard/DashboardGrid.tsx:30 | distinct elements, the same members as the input, and each listed before every element whose first occurrence comes later |
| LabExtract.ApplyAll | src/app/page.tsx:102-103 | after any sequence of writes the markers object has distinct keys and never an "age" key |
| LabExtract.LastWrite | src/app/page.tsx:102-103 | the position of the last write to an id, and none exactly when no write has that id |
| LabExtract.LastWriteWins | src/app/page.tsx:98-105 | each marker holds the value of its last write, and is missing when no write names it |
| LabExtract.LastAgeWins | src/app/page.tsx:102 | age holds the value of the last "age" write, and 45 when there is none |
| LabExtract.MarkerKeysInFirstWriteOrder | src/app/page.tsx:103 | the markers' keys are the written ids other than "age", in order of first write |
| LabExtract.MarkerIdsOf | src/app/page.tsx:102-103 | the ids stored in markers are exactly the written ids other than "age" |
| LabExtract.MarkerIdsOfAppend | src/app/page.tsx:102-103 | the listed ids follow the writes in order, repeats kept: a concatenation lists each part's ids in turn |
| LabExtract.MarkerIdsOfOne | src/app/page.tsx:102-103 | one write lists its id, and nothing when the id is "age" |
| LabExtract.MappedCount | src/app/page.tsx:78 | the number of headers that map to an id is at most the number of headers |
| LabExtract.MappedCountAppend | src/app/page.tsx:78 | the count over a concatenation of headers is the sum of the counts |
| LabExtract.MappedCountOne | src/app/page.tsx:78 | a single header counts 1 exactly when it maps to an id, else 0 |
| LabExtract.CellWrite | src/app/page.tsx:99-104 | a cell is written if and only if its header maps to an id and its value is a number, and then with that id and number |
| LabExtract.WideName | src/app/page.tsx:86-90 | the name never contains "_"; it is the string under the first header that mentions name, patient or client, with "_" turned into spaces; "Guest User" when that cell is not a string or no header matches |
| LabExtract.WideGender | src/app/page.tsx:93-96 | the gender is the string under the first header that mentions gender or sex; "Unknown" when that cell is not a string or no header matches |
| LabExtract.FirstNumber | src/app/page.tsx:111 | the row's first numeric value, and none exactly when the row has no number |
| LabExtract.StringValues | src/app/page.tsx:112 | the strings of the row are exactly its string values |
| LabExtract.StringValuesAppend | src/app/page.tsx:112 | the strings keep the row's order and repeats: a concatenation gives each part's strings in turn |
| LabExtract.StringValuesOne | src/app/page.tsx:112 | a single cell contributes its string, or nothing when it is not a string |
| LabExtract.RowWrite | src/app/page.tsx:110-124 | a row writes at most once; it writes if and only if it has a number and a string that maps to an id; the value is the first number |
| LabExtract.RowWriteUsesFirstMarkerString | src/app/page.tsx:116-122 | the id written is that of the first string, in value order, that maps to an id |
| LabExtract.OrDefault | src/app/page.tsx:129 | the marker's value when present and non-zero, and otherwise the default; never zero for a non-zero default |
| LabExtract.InputsOf | src/app/page.tsx:128-139 | age is copied; each of the nine inputs is its own marker (albumin, creatinine, glucose, crp, lymphocytes_percent, mcv, rdw, alp, wbc) when present and non-zero, and otherwise its literal default; none is zero |
| LabExtract.NoMarkersGiveDefaults | src/app/page.tsx:129-137 | with no markers the inputs are 4.5, 1.0, 90, 0.5, 30, 85, 13, 70 and 6.0 |
| LabExtract.ZeroMarkerTakesDefault | src/app/page.tsx:129-137 | a marker read as 0 is replaced by its default |
| LabExtract.ExtractSpec | src/app/page.tsx:62-139 | no result exactly for an empty table; otherwise distinct marker keys, no "age" marker, no "_" in the name, and the inputs carry the age |
| LabExtract.NarrowFirstRowIsVertical | src/app/page.tsx:76-80 | a first row of at most three columns always takes the vertical layout with the default name and gender |
| LabExtract.WideReadsOnlyFirstRow | src/app/page.tsx:80-83 | for a wide table the rows after the first do not affect the result |
| LabExtract.CollectWide | src/app/page.tsx:98-105 | the loop over the first row's headers ends in the state of applying the row's cell writes in order |
| LabExtract.CollectRow | src/app/page.tsx:109-124 | one vertical row changes nothing when it writes nothing, and otherwise applies its single write |
| LabExtract.CollectVertical | src/app/page.tsx:108-125 | the loop over all rows ends in the state of applying every row's write in order |
| LabExtract.Extract | src/app/page.tsx:62-139 | the callback as run, with the early return, layout test, collection and defaulting, equals the specification |
| Ranges.FindRange | src/app/page.tsx:164 | the first range entry with the marker's id, and none exactly when no entry has it |
| Outliers.MatchesOutward | src/app/page.tsx:171-178 | the outward test passes if and only if the value is at or below the band's max or at or above its min |
| Outliers.OutlierStatus | src/app/page.tsx:168-203 | red if and only if the red band reaches the value; yellow if and only if not red and either the two-sided yellow band holds it or the two-sided green band does not; green if and only if neither red nor yellow and the two-sided green band holds it |
| Outliers.OneSidedGreenNeverGreen | src/app/page.tsx:194-203 | a green band missing a bound never yields green |
| Outliers.RedBeatsGreen | src/app/page.tsx:185-186 | a red match wins even inside the green band |
| Outliers.OutlierOf | src/app/page.tsx:163-206 | an entry is produced if and only if the key has a range entry, a value, and a non-green status; it carries the entry's label and unit, the value and the status |
| Outliers.GetOutliers | src/app/page.tsx:162-208 | at most one entry per marker and never a green one |
| Outliers.GetOutliersAppend | src/app/page.tsx:163 | the list keeps the markers' entry order |
| Outliers.GetOutliersMembers | src/app/page.tsx:163-207 | an outlier is listed if and only if some marker entry produces it |
| BiomarkerCard.InRange | src/components/dashboard/BiomarkerCard.tsx:46-52 | false for a missing band; otherwise true if and only if each present bound holds, inclusively |
| BiomarkerCard.InnerMatchIsInRange | src/app/page.tsx:179-182 | the outlier helper's inner mode is the card's `inRange` |
| BiomarkerCard.CardStatus | src/components/dashboard/BiomarkerCard.tsx:53-55 | green if and only if in the green band; yellow if and only if not green and in the yellow band; red otherwise |
| BiomarkerCard.CardIgnoresRedBand | src/components/dashboard/BiomarkerCard.tsx:53-55 | the card's status does not depend on the red band |
| BiomarkerCard.OutlierGreenIsCardGreen | src/components/dashboard/BiomarkerCard.tsx:53 | what the outlier list calls green the card calls green |
| BiomarkerCard.CardGreenWhereOutlierRed | src/components/dashboard/BiomarkerCard.tsx:53-55 | a concrete value the card calls green and the outlier list red |
| BiomarkerCard.CardGreenWhereOutlierYellow | src/components/dashboard/BiomarkerCard.tsx:53-55 | a concrete value the card calls green and the outlier list yellow |
| BiomarkerCard.CardRedWhereOutlierYellow | src/components/dashboard/BiomarkerCard.tsx:53-55 | a concrete value the card calls red and the outlier list yellow |
| BiomarkerCard.DisplayMax | src/components/dashboard/BiomarkerCard.tsx:99-101 | the slider override when present; otherwise the larger of three times the green max (default 100) and 1.2 times the value |
| BiomarkerCard.Clamp | src/components/dashboard/BiomarkerCard.tsx:102 | the result lies in [0, 100] and equals an input already in that range |
| BiomarkerCard.Percentage | src/components/dashboard/BiomarkerCard.tsx:102 | NaN exactly for 0/0; otherwise in [0, 100], the exact ratio for a value within a positive scale, 100 above it and 0 below zero |
| BiomarkerCard.DefaultScaleLeavesHeadroom | src/components/dashboard/BiomarkerCard.tsx:98-102 | without an override, a non-negative value stays at or below 1/1.2 of the slider |
| BiomarkerCard.LazySplitFrom | src/components/dashboard/BiomarkerCard.tsx:117 | the lazy group ends at the first position after which the rest of the pattern matches, never crossing a line terminator |
| BiomarkerCard.SplitLabel | src/components/dashboard/BiomarkerCard.tsx:117-119 | no sub-label means the whole label is the main label; otherwise the label is main label, whitespace, sub-label, with the sub-label in parentheses and no line terminators |
| BiomarkerCard.SplitAtFirstParenthesis | src/components/dashboard/BiomarkerCard.tsx:117-119 | for a one-line label ending in ")", the main label is the text before the whitespace preceding the first "(", and the sub-label runs from that "(" to the end |
| BiomarkerCard.NoParenthesisNoSplit | src/components/dashboard/BiomarkerCard.tsx:117-119 | a label without "(" or without a final ")" is shown whole with no sub-label |
| BiomarkerCard.CardProtocol | src/components/dashboard/BiomarkerCard.tsx:63-88 | a response's protocol is kept; anything other than the fallback came from a response |
| BiomarkerCard.FallbackHidesDosing | src/components/dashboard/BiomarkerCard.tsx:66-88 | a null protocol and a failed request give the same fallback, which never shows dosing |
| BiomarkerCard.CardDosingForEngine | src/components/dashboard/BiomarkerCard.tsx:210 | the card shows dosing exactly when the engine matched and its dose is not "N/A" |
| ProtocolEngine.TrialFor | src/utils/protocolEngine.ts:84-86 | the first trial row whose normalised compound contains the normalised peptide, and none exactly when no row does |
| ProtocolEngine.Resolve | src/utils/protocolEngine.ts:71-81 | null if and only if no symptom row matches the normalised label in either direction |
| ProtocolEngine.ResolveFromFirstMatch | src/utils/protocolEngine.ts:76-104 | the record is built from the first matching symptom row and its first trial row |
| ProtocolEngine.SymptomFieldsCopied | src/utils/protocolEngine.ts:89-92 | condition, peptide, mechanism and lifestyle are copied from the symptom row |
| ProtocolEngine.TrialFieldsUsed | src/utils/protocolEngine.ts:93-103 | with a trial row: its dose, route, cautions and URL, its schedule as both frequency and duration, and the trial tag |
| ProtocolEngine.DefaultsWithoutTrial | src/utils/protocolEngine.ts:93-103 | without a trial row every other field takes its literal default and the general tag |
| ProtocolEngine.EmptyLabelMatchesFirstRow | src/utils/protocolEngine.ts:76-79 | a label that normalises to nothing matches the first symptom row |
| ProtocolEngine.ShorterCompoundNeverMatches | src/utils/protocolEngine.ts:84-86 | a compound shorter than the peptide never matches, so the trial test is one-way |
| ProtocolEngine.SameNormalFormSameProtocol | src/utils/protocolEngine.ts:72-73 | labels with the same normal form get the same result |
| ProtocolEngine.CaseInsensitive | src/utils/protocolEngine.ts:72-73 | case does not matter to the lookup |
| ProtocolEngine.PunctuationInsensitive | src/utils/protocolEngine.ts:72-73 | deleting a stripped character does not matter to the lookup |
| ProtocolEngine.EngineDosingShown | src/utils/protocolEngine.ts:93-98 | an engine record shows dosing unless its trial row's dose is "N/A" |
| ProtocolEngine.Engine.constructor | src/utils/protocolEngine.ts:42-46 | empty tables, not initialised |
| ProtocolEngine.Engine.Init | src/utils/protocolEngine.ts:48-66 | nothing changes once initialised; otherwise a failed symptom load changes nothing, a failed trial load keeps the new symptom table and stays uninitialised, and success sets both tables and the flag |
| ProtocolEngine.Engine.GetProtocol | src/utils/protocolEngine.ts:68-105 | null before a successful init; a result only when some symptom row matches; after init, null only when none does |
| DashboardGrid.KnownItemsMembers | src/components/dashboard/DashboardGrid.tsx:11-18 | an item is kept if and only if it comes from a marker whose key has a range entry, with that entry |
| DashboardGrid.KnownItemsAppend | src/components/dashboard/DashboardGrid.tsx:11-18 | the kept items keep the markers' order |
| DashboardGrid.CategoryOf | src/components/dashboard/DashboardGrid.tsx:23 | never empty; the entry's category when that is a non-empty string, and "Other" otherwise |
| DashboardGrid.Group | src/components/dashboard/DashboardGrid.tsx:21-26 | the categories object never holds a category twice |
| DashboardGrid.CreateThenPush | src/components/dashboard/DashboardGrid.tsx:24-25 | creating an empty list on first sight and then pushing equals one push |
| DashboardGrid.GroupByCategory | src/components/dashboard/DashboardGrid.tsx:21-26 | the in-place loop builds exactly the specified grouping |
| DashboardGrid.OfCategoryAppend | src/components/dashboard/DashboardGrid.tsx:25 | the items of a category keep their original order: over a concatenation, each part's in turn |
| DashboardGrid.OfCategoryOne | src/components/dashboard/DashboardGrid.tsx:25 | a single item belongs to its own category's list and no other |
| DashboardGrid.GroupKeysInFirstAppearanceOrder | src/components/dashboard/DashboardGrid.tsx:22-30 | sections appear in order of the first item of each category |
| DashboardGrid.GroupHoldsItsCategory | src/components/dashboard/DashboardGrid.tsx:22-26 | a category's section holds exactly its items in original order, and a category with no items has no section |
| DashboardGrid.NoItemsOfAbsentCategory | src/components/dashboard/DashboardGrid.tsx:22-26 | a category no item has collects no items |
| DashboardGrid.GroupKeepsEveryItem | src/components/dashboard/DashboardGrid.tsx:22-26 | the sections together hold as many items as were kept |

## Left out

- src/utils/phenoAge.ts is not part of this model. It is floating-point logarithm and exponential arithmetic; the model stops at the PhenoAge input record.
- CSV parsing and file reading are inputs. Rows arrive already parsed; the engine's two loads arrive as success or failure.
- The HTTP routes and the language-model call are not modelled. They build requests, prompts and status codes around the pieces modelled here.
- React state, effects, `setTimeout`, `Date.now` and ISO date formatting are not modelled. The card's request is modelled only by its outcome, `BiomarkerCard.FetchOutcome`.
- Presentation components are not modelled: header, sidebar, layout, upload widget, timeline chart and age meter.
- JsText.LowerChar: `toLowerCase` is modelled for ASCII letters only. Non-ASCII case mappings cannot produce `[a-z0-9]` except for rare characters such as the Kelvin sign, and those are not modelled.
- Numbers are exact reals and rounding is not modelled. The one place where the source can divide by zero is `Percentage`. There, x/0 for a positive or negative x is an infinity that the clamp turns into 100 or 0, and the model returns those values. The NaN of 0/0 is modelled as `None`.
- The card's `safeMin` is only displayed and is not modelled.
- Key order follows insertion order. JavaScript lists integer-like keys first, but no marker id or category this pipeline produces is integer-like; a range table with numeric categories is not modelled.
- A category named like an `Object.prototype` member (such as "constructor") would be truthy before any write. This is not modelled.
- The engine's `init` is asynchronous in form but awaits nothing. Overlapping calls are not modelled.
- Cells that a parsed row lacks are simply absent from the row model. Rows with missing columns are not distinguished further.
- BiomarkerCard.SplitAtFirstParenthesis: it is stated for labels without line terminators. For other labels `SplitLabel` still models the regular expression exactly, and its decomposition contract holds.
- ProtocolEngine.Engine.GetProtocol: its contract states the guard and the match condition. The full record is stated by `Resolve` and the lemmas about it.
- MarkerIdsOf: its own contract states which ids are listed; their order and repeats are stated by `MarkerIdsOfAppend` and `MarkerIdsOfOne`, which together determine the list.
- MappedCount: its own contract states a bound; its value is stated by `MappedCountAppend` and `MappedCountOne`, which together determine it.
- StringValues: its own contract states membership; order and repeats are stated by `StringValuesAppend` and `StringValuesOne`, which together determine the list.
- OfCategory: its own contract states only a length bound; its items, their order and repeats and repeats are stated by `OfCategoryAppend` and `OfCategoryOne`, which together determine the list.
- DashboardGrid.GroupByCategory: it works on sequence values, so the aliasing of the pushed arrays is not modelled.
- The card status and the outlier status are two separate rules, as in the source. The lemmas above show where they disagree.
