# Commission rule engine of an insurance CRM, in Dafny

This project models the commission rule engine of a Node/Express insurance
CRM. The engine decides which dealer or partner commission rule applies to a
policy, and how much that rule pays.

- **Rule owners.** Dealers and partners store rule sets ("breakdowns") per
  owner and per effective date.
- **Reports.** A report resolves the rule set in force for a date. It
  discards candidates that fail a range gate, the RTO prefix or any field
  score, then picks the best weighted score and computes
  `base × percent / 100 + fixed` on the OD or Net premium.
- **Saving.** A partner's save merges or replaces its own set. It then
  fans the items flagged "apply to all partners" out to every other
  partner's set for the same date, and persists the flag as cleared.
- **Helpers.** The tracking and renewals pages build query filters, and
  the tracking page escapes HTML and exports CSV.

Modules, leaves first:

- `Wrappers`: `Option` and the `Response` status codes.
- `Text`: ASCII trim/lower-case, `normalize`, splitting and joining, `parseFloat` on plain numerals, `parseInt` on decimal digits and the "0x" prefix, decimal text.
- `Ranges`: `parseRange` and the cc/NCB value extraction; `Keyed`: first-match search and first-per-key maps over sequences.
- `Sorting`: a stable insertion sort, the model of `Array.prototype.sort` with a comparator; `Selection`: best-candidate choice.
- `Calendar`: JavaScript's day arithmetic on integer day ordinals; `DateKeys`: the five `getCleanDate` variants and `parseDateKey`.
- `AsOf`: "the exact key, else the latest key not after the date" and its variants.
- `Merge`: the generic `mergeItemsIntoDoc`, with class `RuleSet` mutating its item list in place.
- `Store`: the rule store, with class `Collection` whose `records` field the save operations reassign.
- `PartnerSave`: the shared save-and-propagate protocol.
- `GicRules`, `GicScoring`: GIC (motor) field scoring, candidate survival, best rule and payout.
- One module per controller: `PartnerGic`, `PartnerHealth`, `PartnerNonMotor`, `PartnerLic`, `DealerLic`, `DealerNonMotor`, `DealerExpense`.
- `Track` (`buildFilters`, `standardizeEntry`, `trackAll`), `TrackClient` (`escapeHtml`, CSV export, the client-side `applyTrackFilters`) and `Renewals` (`buildRenewalFilter`).

Money and percentages are `real`, and a missing or unparsable number is
`None`. Request texts are `string`, with "" for an absent parameter. Dates
are integer day ordinals, or millisecond moments where the source compares
moments. Store writes that throw are chosen by a `failing` set of owners;
a partner's `save()` also throws when the schema refuses the list it
writes (a required text missing or empty).

Where the code and the design of the system differ, the model follows the code:

- **Weights.** The weights do not give strict precedence: a rule specific
  only in its vehicle model (200) loses to one specific in company and
  coverage (100 + 150) (`GicScoring.ModelDoesNotDominate`).
- **Report dates.** The reports take the latest set, not the one in force
  on the policy date.
- **GIC date keys.** The GIC report picks its "latest" set by comparing
  `ddmmyyyy` strings, so January 31st beats February 1st
  (`AsOf.LatestKeyIsNotLatestDate`).
- **Failed fan-out writes.** A failed fan-out write is not reported
  separately: it fails the request.
- **Unparsable maximum.** An unparsable range maximum is NaN, and
  excludes nothing.

## Model

| member | source | states |
|---|---|---|
| Text.ToLower | controllers/dealerExpenseController.js:10 | lower-cases each ASCII letter in place and keeps the length |
| Text.Trim | controllers/dealerExpenseController.js:10 | the trimmed text begins and ends with no whitespace and is no longer than the input |
| Text.TrimOfSurrounded | controllers/dealerExpenseController.js:10 | whitespace around a text that starts and ends with a non-space character is exactly what the trim removes |
| Text.NormalizeIdempotent | controllers/dealerExpenseController.js:10 | normalising an already normalised value changes nothing |
| Text.NormalizeOfNormal | controllers/dealerExpenseController.js:10 | a value with no upper case and no surrounding whitespace is its own normal form |
| Text.RemovePercent | controllers/dealerExpenseController.js:17 | no '%' remains after the replacement |
| Text.Filter | controllers/dealerExpenseController.js:264 | every character kept belongs to the class, and the result is no longer than the input |
| Text.JoinSplit | controllers/dealerExpenseController.js:21 | joining the split parts again gives the original text |
| Text.SplitJoin | controllers/dealerExpenseController.js:21 | splitting a join of separator-free parts gives the parts back |
| Text.ParseFloatOfDigits | controllers/dealerExpenseController.js:22 | `parseFloat` of digits followed by a non-number character reads the digits' decimal value |
| Text.ParseFloatNaN | controllers/dealerExpenseController.js:22 | a text with no digit at the front parses as NaN |
| Text.ParseIntOfDigits | controllers/partner-gic-commission.controller.js:25-27 | `parseInt` of a digit string is its decimal value |
| Text.ParseIntBareHexPrefix | controllers/partner-gic-commission.controller.js:25-27 | `parseInt` reads a leading "0x" as a base-16 prefix, so "0x" with no hexadecimal digit after it is NaN |
| Text.NatTextValue | controllers/partner-gic-commission.controller.js:43 | the printed numeral of a number reads back as that number |
| Text.NumberTextOfNat | controllers/partner-gic-commission.controller.js:43 | a whole number interpolated into a template shows as its numeral, which `parseFloat` reads back |
| Ranges.ParseRangeMinNonNegative | controllers/dealerExpenseController.js:16-27 | the lower bound is never negative; outside the wildcards it is the parsed first part, and 0 when that part does not parse (`parseFloat(parts[0]) || 0`, line 22) |
| Ranges.ParseRangeWildcard | controllers/dealerExpenseController.js:17-19 | a value that is "" or "all" after trimming, lower-casing and '%' removal gives [0, ∞), which admits every non-negative value |
| Ranges.FullRangeWords | controllers/dealerExpenseController.js:19 | "All" and "" give [0, ∞) |
| Ranges.ParseRangeOpen | controllers/dealerExpenseController.js:21-24 | "A", "A-" and "A-max" give [A, ∞) |
| Ranges.ParseRangeClosed | controllers/dealerExpenseController.js:21-26 | "A-B" gives [A, B] |
| Ranges.ParseRangeNaNMax | controllers/dealerExpenseController.js:24-276 | an unparsable maximum such as "10-abc" is NaN, and then a value is admitted exactly when it is at least the minimum (lines 24 and 276) |
| Ranges.UnboundedMaxNeverExcludes | controllers/dealerExpenseController.js:276-279 | an infinite or NaN upper end never excludes a value |
| Ranges.ScoreField | controllers/dealerExpenseController.js:35-42 | 1 for a wildcard rule value, the weight on trimmed case-insensitive equality, -1 otherwise |
| Ranges.ScoreFieldSign | controllers/dealerExpenseController.js:35-301 | the score is non-negative exactly when the rule value accepts the policy value; it is one of 1, weight, -1; it is the weight exactly for a non-wildcard match (lines 35-42 and 301) |
| Ranges.ScoreFieldOfNormalized | controllers/dealerExpenseController.js:36-261 | normalising either value beforehand leaves the score unchanged (lines 36-37 and 258-261) |
| GicRules.MatchNorm | controllers/partner-gic-commission.controller.js:33-37 | the normal form never is "all" or "0-max" and holds no '%' |
| GicRules.MatchingIsKeyEquality | controllers/partner-gic-commission.controller.js:32-58 | two rows match exactly when their normalised match keys are equal |
| GicRules.MatchingIsEquivalence | controllers/partner-gic-commission.controller.js:32-58 | matching is reflexive, symmetric and transitive |
| GicRules.PayoutFieldsDoNotMatter | controllers/partner-gic-commission.controller.js:46-57 | percent, fixed, the two net flags, the one-shot flag and the dealer percent take no part in matching |
| GicRules.WildcardSpellings | controllers/partner-gic-commission.controller.js:36 | "All", "" and "0-Max" have the same normal form |
| GicRules.MatchNormOfNormalized | controllers/partner-gic-commission.controller.js:34 | trimming and lower-casing beforehand leaves the normal form unchanged |
| GicScoring.PolicyNumber | controllers/dealerExpenseController.js:270-271 | a policy's cc or NCB value is never negative |
| GicScoring.RtoPrefix | controllers/dealerExpenseController.js:264 | the policy's RTO code has at most four characters, all in `[a-z0-9]` |
| GicScoring.RuleRto | controllers/dealerExpenseController.js:292 | the rule's RTO code holds only `[a-z0-9]` |
| GicScoring.FieldScoreMeaning | controllers/dealerExpenseController.js:282-288 | a field scores its weight (1 for a wildcard) when the rule accepts the policy value, and -1 otherwise |
| GicScoring.ScoresOfMeaning | controllers/dealerExpenseController.js:282-288 | each of the five field scores follows the field-score rule with weights 100/500/1000/200/150 |
| GicScoring.RtoScoreMeaning | controllers/dealerExpenseController.js:291-298 | the RTO check passes exactly for a wildcard RTO or a code contained in the policy's code, and then scores 1 or 2000 |
| GicScoring.ScoreRuleSurvivors | controllers/dealerExpenseController.js:273-307 | a rule is kept exactly when it passes the cc/NCB gates, the RTO check and every field, and then scores its total |
| GicScoring.WeightRange | controllers/dealerExpenseController.js:35-42 | a surviving field contributes between 1 and its weight: 1 for a wildcard, the weight otherwise |
| GicScoring.FieldTotalRange | controllers/dealerExpenseController.js:282-305 | the five field scores of a survivor add up to between 5 and 1950 |
| GicScoring.RtoDominates | controllers/dealerExpenseController.js:294-305 | a survivor with a specific RTO outranks every survivor with a wildcard RTO |
| GicScoring.FuelDominates | controllers/dealerExpenseController.js:284-305 | with the same kind of RTO, a specific fuel outranks a wildcard fuel |
| GicScoring.ProductDominates | controllers/dealerExpenseController.js:283-305 | with the same kind of RTO and fuel, a specific product outranks a wildcard product |
| GicScoring.ModelDoesNotDominate | controllers/dealerExpenseController.js:282-288 | a rule specific only in its model scores 205, below the 254 of a rule specific only in company and coverage |
| GicScoring.RaisingAFieldRaisesTheScore | controllers/dealerExpenseController.js:282-305 | replacing a wildcard field by the policy's own value keeps the rule surviving and strictly raises its score |
| GicScoring.MatchRuleIsFirstBest | controllers/dealerExpenseController.js:307-313 | the matched rule has the maximum score among survivors and is the earliest such; there is none exactly when nothing survives |
| GicScoring.Cents | controllers/dealerExpenseController.js:352 | rounding to two decimals lands within half a cent of the value |
| GicScoring.RoundCents | controllers/dealerExpenseController.js:352 | the rounded amount is within half a cent of the amount |
| GicScoring.PayoutFor | controllers/dealerExpenseController.js:316-354 | premiums default to 0; "No Rule" with calcOn NA and zero amounts exactly when no rule survives; otherwise the chosen rule's percent and fixed, on NET when either net flag is true and on OD otherwise, amount = premium × percent/100 + fixed rounded to cents |
| DateKeys.GicCleanDateIso | controllers/partner-gic-commission.controller.js:13-15 | "YYYY-MM-DD" becomes "DDMMYYYY" |
| DateKeys.GicCleanDateDayFirst | controllers/partner-gic-commission.controller.js:16 | a dashed value whose first part has 2 characters has its parts concatenated in order |
| DateKeys.GicCleanDateMissingPart | controllers/partner-gic-commission.controller.js:14-15 | a missing part interpolates as "undefined": "2025-01" gives "undefined012025" |
| DateKeys.GicCleanDateCases | controllers/partner-gic-commission.controller.js:11-20 | a dash-free value is kept exactly when it has 8 characters; a dashed value is accepted exactly when its first part has 2 or 4 characters |
| DateKeys.HealthIsGicOfTrimmed | controllers/partner-health-commission.controller.js:8-21 | the health reading is the GIC reading of the trimmed text |
| DateKeys.HealthCleanDateIso | controllers/partner-health-commission.controller.js:9-13 | "YYYY-MM-DD" with any whitespace before and after it still becomes "DDMMYYYY" |
| DateKeys.SplitDateKeyIso | controllers/partner-nonmotor-commission.controller.js:9-12 | "YYYY-MM-DD", with or without a "T…" time part, becomes "DDMMYYYY" |
| DateKeys.SplitDateKeyDigits | controllers/partner-nonmotor-commission.controller.js:11 | a value without a dash is reduced to its digits |
| DateKeys.DealerLicDashed | controllers/dealer-lic-commission.controller.js:6-12 | three dashed digit groups with 8 digits in all and the first dash before index 5 are read as yyyymmdd and emitted as ddmmyyyy |
| DateKeys.DealerLicIso | controllers/dealer-lic-commission.controller.js:8-12 | "YYYY-MM-DD" becomes "DDMMYYYY" |
| DateKeys.DealerLicMisreadsDayFirst | controllers/dealer-lic-commission.controller.js:8-12 | "DD-MM-YYYY" is also read as yyyymmdd, so it does not become "DDMMYYYY" unless the day repeats the year's last two digits |
| DateKeys.DealerLicUndashed | controllers/dealer-lic-commission.controller.js:6-14 | a dash-free value is accepted exactly when it has 8 digits, and 8 digits are kept unchanged |
| DateKeys.StartOfDay | controllers/dealer-nonmotor-commission.controller.js:11-16 | the start of day is at or before the moment, less than a day before it, and a whole number of days |
| DateKeys.GetStartOfDay | controllers/dealer-nonmotor-commission.controller.js:7-18 | null for a missing or invalid date, otherwise the start of its day |
| DateKeys.SameDay | controllers/dealer-nonmotor-commission.controller.js:7-18 | two moments share a start of day exactly when the second lies in the first's day |
| DateKeys.StartOfDayIdempotent | controllers/dealer-nonmotor-commission.controller.js:11-16 | truncating twice is truncating once |
| Calendar.DayFromYearStep | controllers/partner-gic-commission.controller.js:28 | consecutive years start 365 or 366 days apart |
| Calendar.CivilDayOrder | controllers/partner-gic-commission.controller.js:28 | an earlier valid date has a smaller day number |
| Calendar.CivilDayInjective | controllers/partner-gic-commission.controller.js:28 | distinct valid dates have distinct day numbers |
| Calendar.CivilDayFrom1970 | controllers/partner-gic-commission.controller.js:28 | every valid date from 1970 on has a non-negative day number |
| Calendar.MakeDayOfValid | controllers/partner-gic-commission.controller.js:28 | `new Date(y, m - 1, d)` of a valid date is that date's day |
| Calendar.ParseDateKeyOfDateKey | controllers/partner-gic-commission.controller.js:23-29 | a well-formed `ddmmyyyy` key parses to the day of the date it spells |
| Calendar.DateKeysChronological | controllers/partner-gic-commission.controller.js:23-29 | of two well-formed keys, the earlier date parses to the smaller moment |
| Calendar.MalformedKeySortsFirst | controllers/partner-gic-commission.controller.js:24 | a key of the wrong length parses to 0, no later than any well-formed key from 1970 on |
| Calendar.StringOrderIsNotChronological | controllers/partner-gic-commission.controller.js:319-321 | "31012025" is the larger string yet the earlier date, so the report's string-ordered lookup is not chronological |
| Sorting.SortBy | controllers/dealerExpenseController.js:311 | the sorted list is a permutation of the input |
| Sorting.SortBySorted | controllers/dealerExpenseController.js:311 | the sorted output is ordered: no element strictly precedes an earlier one |
| Sorting.SortByHead | controllers/dealerExpenseController.js:311-312 | the head of the stable sort is the first best element of the input |
| Sorting.SortHighestFirstHead | controllers/dealerExpenseController.js:311-312 | sorting by `b.totalScore - a.totalScore` and taking the head gives the first element with the highest score |
| Sorting.StrLessTotal | controllers/partner-gic-commission.controller.js:245 | string comparison is a strict total order |
| Sorting.KeysLessTotal | controllers/partner-health-commission.controller.js:159-165 | comparing several keys one after another is a strict total order |
| Selection.ChosenIndex | controllers/dealerExpenseController.js:273-313 | no candidate is chosen exactly when none scores; otherwise the chosen one scores, nothing scores higher, and every earlier scoring candidate scores lower |
| Selection.SurvivorsEmpty | controllers/dealerExpenseController.js:307-310 | the filtered list is empty exactly when no candidate scores |
| Selection.PickIsChosen | controllers/dealerExpenseController.js:307-313 | sorting the survivors by score and taking the head picks the chosen candidate, and nothing when there is none |
| Keyed.FirstIndex | controllers/partner-gic-commission.controller.js:65-67 | `findIndex`: none exactly when no element has the key, else the first position with it |
| Keyed.Find | controllers/partner-gic-commission.controller.js:231 | `find`: none exactly when no element has the key, else an element with it |
| Keyed.FindIndex | controllers/partner-gic-commission.controller.js:65-67 | the search loop returns the first index with the key, or -1 |
| Keyed.FindFirst | controllers/partner-gic-commission.controller.js:231 | `find` returns the first element with the key, and nothing exactly when no element has it |
| Keyed.FirstsByMeaning | controllers/partner-gic-commission.controller.js:203-208 | the first-per-key values hold each key of the input once, each the first element with that key, in input order |
| Keyed.FirstPerKey | controllers/partner-gic-commission.controller.js:203-208 | the map built by the loop holds the first element per key, and its values in insertion order are the first-per-key list |
| Keyed.FirstMapIsFind | controllers/partner-nonmotor-commission.controller.js:152-164 | looking a key up in the first-per-key map is `find` on the input |
| Keyed.Overlaid | controllers/partner-nonmotor-commission.controller.js:162-171 | one output row per master row, each laid over the first saved item with the same key |
| Keyed.OverlayAll | controllers/partner-nonmotor-commission.controller.js:152-171 | the map-filling loop and the mapping loop give the overlaid rows |
| AsOf.StampScoreMeaning | controllers/partner-gic-commission.controller.js:215-216 | a document qualifies exactly when it is the owner's and its key parses to a moment no later than the requested one |
| AsOf.ResolveMeaning | controllers/partner-gic-commission.controller.js:212-221 | the exact (owner, key) document when present; otherwise a qualifying document with the greatest parsed key, or none when none qualifies |
| AsOf.InForceMeaning | controllers/partner-gic-commission.controller.js:215-219 | a resolved document is the owner's, no later than the date, and no earlier than any other such document |
| AsOf.ResolveAfterUpsert | controllers/partner-gic-commission.controller.js:129-212 | after saving under an exact key the lookup for that key returns the saved items (lines 129-141 and 212) |
| AsOf.OwnersMeaning | controllers/partner-nonmotor-commission.controller.js:127 | `distinct`: the names are exactly those of the documents, each once |
| AsOf.OwnedBy | controllers/partner-gic-commission.controller.js:214 | exactly the owner's documents |
| AsOf.LatestByKeyMeaning | controllers/partner-gic-commission.controller.js:319-323 | the document found is the owner's with the greatest key string, and there is one whenever the owner has any |
| AsOf.LatestKeyIsNotLatestDate | controllers/partner-gic-commission.controller.js:319-321 | with keys "01022025" and "31012025" the report takes the January set although February is later |
| AsOf.UpTo | controllers/partner-gic-commission.controller.js:201 | exactly the documents dated on or before the target |
| AsOf.Named | controllers/partner-gic-commission.controller.js:206 | exactly the documents with a non-empty dealer name |
| AsOf.NewestMeaning | controllers/partner-nonmotor-commission.controller.js:131 | none exactly for no documents; otherwise a document with the latest date, the first such in store order |
| AsOf.NewestFirstMeaning | controllers/partner-gic-commission.controller.js:201 | sorting keeps the documents and orders them newest first |
| AsOf.LatestPerOwnerMeaning | controllers/partner-gic-commission.controller.js:201-208 | each named dealer with a document on or before the target appears once, with its latest such document |
| AsOf.NamedDistinct | controllers/partner-gic-commission.controller.js:203-208 | the dealers in the first-per-dealer list are distinct |
| Merge.LastWith | controllers/partner-gic-commission.controller.js:64-80 | none exactly when no batch item has the key, else a batch item with it |
| Merge.RuleSet.MergeItems | controllers/partner-gic-commission.controller.js:61-82 | `mergeItemsIntoDoc` updates the item list in place to the merge of the batch, and `updatedCount + newCount` is the batch length |
| Merge.MergeOneKeys | controllers/partner-gic-commission.controller.js:65-79 | merging one item keeps every stored key, and the item's key is then present |
| Merge.MergeAllKeys | controllers/partner-gic-commission.controller.js:64-80 | a merge keeps every stored key, and every batch key is then present |
| Merge.MergeAllLength | controllers/partner-gic-commission.controller.js:62-81 | the list grows by exactly the number of appended items, and updated + new is the batch length |
| Merge.MergeAllLeavesOthers | controllers/partner-gic-commission.controller.js:69-79 | stored items whose key no batch item carries keep their place and content |
| Merge.LaterItemWins | controllers/partner-gic-commission.controller.js:64-80 | within one batch, the last item with a key decides the payout fields of the stored item with that key |
| Merge.FindAfterMerge | controllers/partner-gic-commission.controller.js:65-74 | after a merge, the first stored item with a batch key carries the payout fields of the last batch item with that key |
| Merge.Overwritten | controllers/partner-gic-commission.controller.js:69-74 | overwriting in place keeps the length |
| Merge.MergeCoveredOverwrites | controllers/partner-gic-commission.controller.js:69-75 | when every batch key is already stored, a merge appends nothing and only overwrites |
| Merge.MergeTwiceIsMergeOnce | controllers/partner-gic-commission.controller.js:61-82 | merging the same batch again changes nothing, adds no item and counts every item as updated |
| Merge.MergeTwiceOn | controllers/partner-gic-commission.controller.js:61-82 | merging a batch that keeps the merge laws a second time changes nothing |
| Merge.MergeAllAgree | controllers/partner-gic-commission.controller.js:64-80 | two ways of making new items that agree on the batch's items give the same merge |
| Merge.MergeAllKeeps | controllers/partner-gic-commission.controller.js:61-82 | a property held by every stored item and kept by merging holds for every item afterwards |
| Store.Without | controllers/dealer-nonmotor-commission.controller.js:64-67 | `deleteMany` leaves only documents that are not the owner's in the day, and adds none |
| Store.Collection.Upsert | controllers/partner-nonmotor-commission.controller.js:61-65 | `findOneAndUpdate` with upsert sets the slot's items and timestamp |
| Store.Collection.MergeInto | controllers/partner-gic-commission.controller.js:129-136 | find or start the slot's document, merge the batch into it, save it; the counts add up to the batch length |
| Store.Collection.DeleteDay | controllers/dealerExpenseController.js:63-67 | the owner's documents in the day are removed |
| Store.Collection.Insert | controllers/dealerExpenseController.js:70-81 | the new document is appended |
| Store.Collection.ReplaceWhere | controllers/dealerExpenseController.js:419-427 | the first accepted document is replaced, or the new one appended |
| Store.Collection.MergeIntoEach | controllers/partner-gic-commission.controller.js:159-175 | one load-merge-save per target, in order, stopping with a server error at the first write that throws |
| Store.UpsertedMeaning | controllers/partner-nonmotor-commission.controller.js:61-65 | after an upsert the slot holds the new items; every other document keeps its place and content |
| Store.MergedIntoMeaning | controllers/partner-gic-commission.controller.js:162-173 | the slot holds the merge of what it held (or of nothing) with the batch; every other document is unchanged |
| Store.WithoutMeaning | controllers/dealer-nonmotor-commission.controller.js:64-67 | every document not of the owner in the day survives, in order, and nothing else is added |
| Store.ReplaceDayLeavesOne | controllers/dealer-nonmotor-commission.controller.js:64-74 | after the same-day replace the owner has exactly one document in the day, the new one |
| Store.ReplacedWhereMeaning | controllers/dealerExpenseController.js:419-427 | the first accepted document becomes the new one; every other document stays where it was |
| Store.MergeEachResponse | controllers/partner-gic-commission.controller.js:159-185 | the loop ends in a server error exactly when a target's write throws |
| Store.MergeEachFrame | controllers/partner-gic-commission.controller.js:159-175 | documents of other slots keep their place and content, and the list only grows |
| Store.MergeEachMerges | controllers/partner-gic-commission.controller.js:162-173 | a target written before any failure holds the batch merged into its document for the date, however often it is listed |
| Store.MergeEachFixpoint | controllers/partner-gic-commission.controller.js:159-175 | when every target's document already absorbs the batch, the loop changes nothing |
| Store.MergedIntoKeeps | controllers/partner-gic-commission.controller.js:162-173 | a property every stored and every batch item has still holds after a load-merge-save |
| Store.MergeEachKeeps | controllers/partner-gic-commission.controller.js:159-175 | the same through the whole loop |
| Store.MergeEachMergesOnce | controllers/partner-gic-commission.controller.js:159-175 | when no write fails and no target is listed twice, each target's document holds its old items merged with the batch, whatever the merge laws |
| Store.DistinctOtherPartnersOnce | controllers/partner-nonmotor-commission.controller.js:75-83 | the non-motor and LIC targets are spelled once each |
| Store.UpsertedKeeps | controllers/partner-nonmotor-commission.controller.js:61-65 | the same through an upsert |
| Store.OtherPartners | controllers/partner-gic-commission.controller.js:147-149 | exactly the names whose trimmed lower-case form differs from the saver's |
| Store.Present | controllers/partner-nonmotor-commission.controller.js:76 | exactly the non-empty names |
| Store.TrimAll | controllers/partner-nonmotor-commission.controller.js:77 | each name trimmed, one for one |
| Store.DistinctOtherPartnersMeaning | controllers/partner-nonmotor-commission.controller.js:75-83 | the saver is never a target and every other spelling the scan found has a target |
| PartnerSave.Flagged | controllers/partner-gic-commission.controller.js:120 | exactly the flagged items, in order |
| PartnerSave.Cleared | controllers/partner-gic-commission.controller.js:123-126 | every item with its flag cleared, one for one |
| PartnerSave.SaveAndPropagate | controllers/partner-gic-commission.controller.js:120-180 | merge the cleared items into the saver's document, then, with flagged items, merge them cleared into every other Active partner's document for the date |
| PartnerSave.SavedResponse | controllers/partner-gic-commission.controller.js:136-185 | the save answers a server error exactly when the saver's write or, with flagged items, a target's write throws (lines 136 and 172-185) |
| PartnerSave.SavedChecked | controllers/partner-gic-commission.controller.js:129-185 | with the writes the schema refuses counted as throwing, the save answers 200 exactly when the saver is not failing and its merged list passes, and, with flagged items, every target is not failing and its merged list passes; 500 otherwise |
| PartnerSave.SaverIsNoTarget | controllers/partner-gic-commission.controller.js:147-149 | the saver is never a propagation target |
| PartnerSave.SaverGetsItems | controllers/partner-gic-commission.controller.js:129-136 | unless its write throws, the saver's document for the date holds its old items merged with the submitted items, flags cleared |
| PartnerSave.OthersGetFlagged | controllers/partner-gic-commission.controller.js:154-175 | each other partner written holds its old items merged with exactly the flagged items, flags cleared |
| PartnerSave.UnflaggedSaveWritesOnlySaver | controllers/partner-gic-commission.controller.js:140-178 | a save without flagged items writes the saver's document only |
| PartnerSave.SaveFrame | controllers/partner-gic-commission.controller.js:129-175 | documents of other dates and of partners not written keep their place and content |
| PartnerSave.FlagNeverStored | controllers/partner-gic-commission.controller.js:123-157 | when no stored item carries the one-shot flag before a save, none carries it after, whichever writes failed |
| PartnerSave.ReplaceAndPropagate | controllers/partner-nonmotor-commission.controller.js:54-106 | replace the saver's items wholesale, then merge the batch into every other distinct partner's document for the date |
| PartnerSave.ReplacedResponse | controllers/partner-nonmotor-commission.controller.js:61-113 | a server error exactly when the saver's write or, with a non-empty batch, a target's write throws |
| PartnerSave.SaverIsNoDistinctTarget | controllers/partner-nonmotor-commission.controller.js:83 | the saver is never a target |
| PartnerSave.ReplacedSaver | controllers/partner-nonmotor-commission.controller.js:61-65 | unless its write throws, the saver's document holds exactly the cleaned items, whatever it held before |
| PartnerSave.ReplacedTargets | controllers/partner-nonmotor-commission.controller.js:85-106 | each target written holds its old items with the batch merged in |
| PartnerSave.ReplacedFrame | controllers/partner-nonmotor-commission.controller.js:61-106 | documents of other dates and of owners neither saver nor target keep their place and content |
| PartnerSave.ReplacedKeeps | controllers/partner-nonmotor-commission.controller.js:55-103 | a property of every stored item keeps holding when the saver's items have it and the merge keeps it |
| PartnerSave.ReplacedRepeat | controllers/partner-nonmotor-commission.controller.js:92-103 | saving the same request again leaves the same documents: no target gains an item |
| PartnerSave.ReplacedRepeatChecked | controllers/partner-nonmotor-commission.controller.js:92-103 | with the targets' writes validated, the repeat still succeeds and changes nothing: the lists the first save wrote pass again |
| PartnerGic.Sanitize | controllers/partner-gic-commission.controller.js:98-117 | a missing dealer becomes "Unknown"; numbers that do not parse become 0; both net flags become `OnNet \|\| percentOnNet` |
| PartnerGic.SanitizeAll | controllers/partner-gic-commission.controller.js:98 | every item sanitised, one for one |
| PartnerGic.ClearFlag | controllers/partner-gic-commission.controller.js:123-126 | the cleared item never carries the one-shot flag |
| PartnerGic.GicKeyIsMatching | controllers/partner-gic-commission.controller.js:65-67 | two rows share a key exactly when their dealer names are equal and `areRulesMatching` accepts them |
| PartnerGic.GicMergeLawful | controllers/partner-gic-commission.controller.js:69-77 | the merge overwrites only payout fields, so it keeps keys and later items win |
| PartnerGic.Save | controllers/partner-gic-commission.controller.js:87-186 | the save handler's response and the documents afterwards are those of the save's reference result |
| PartnerGic.SaveOutcome | controllers/partner-gic-commission.controller.js:93-185 | without a name, a readable date or items the answer is 400 and nothing is written; otherwise 200 exactly when the saver's write does not fail and its merged list has a dealer, company and product on every rule, and, with a flagged rule, the same holds for every other Active partner; 500 otherwise (lines 93-95 and 129-185); which writes throw is decided by the required dealer, company and product of the schema in models/partnergiccommission.js |
| PartnerGic.SanitizeKeepsFlags | controllers/partner-gic-commission.controller.js:98-117 | some sanitised rule is flagged exactly when some submitted rule is |
| PartnerGic.SaveNeverStoresFlag | controllers/partner-gic-commission.controller.js:123-157 | no stored rule, the saver's or another's, keeps the one-shot flag |
| PartnerGic.SavePropagatesFlagged | controllers/partner-gic-commission.controller.js:140-175 | after a successful save every other Active partner's set for the date holds the flagged rules merged in, and unflagged rules reach no other partner |
| PartnerGic.RowsOfDoc | controllers/partner-gic-commission.controller.js:226-243 | one row per dealer rule of the document, in order |
| PartnerGic.RowForMeaning | controllers/partner-gic-commission.controller.js:231-241 | a row keeps the dealer rule, shows the dealer's percent as `dealerPercent`, and shows the first matching saved rule's percent, net flag and one-shot flag, or 0 and the rule's own net flag without one; `isSaved` exactly when there is one |
| PartnerGic.GetViewMeaning | controllers/partner-gic-commission.controller.js:191-251 | 400 without a date; 500 with no rows when `new Date(date)` is an Invalid Date (lines 198-201, 247-249); otherwise the rows of each dealer's latest set on or before the day, sorted by dealer name |
| PartnerGic.SavedRulesExact | controllers/partner-gic-commission.controller.js:212-222 | with a set for exactly the requested date, the saved rules are that set's items |
| PartnerGic.SaveThenRead | controllers/partner-gic-commission.controller.js:129-222 | when the saver's write goes through and its merged list is complete, reading the date back gives the stored rules merged with the cleaned batch (lines 129-136 and 212-222) |
| PartnerGic.RowForFound | controllers/partner-gic-commission.controller.js:231-241 | a row whose saved match carries given payout values shows them |
| PartnerGic.SaveThenView | controllers/partner-gic-commission.controller.js:129-241 | after a successful save, the view for that date shows, for a dealer rule matching a saved item, the last such item's percentage, marked saved (lines 129-136 and 212-241) |
| PartnerGic.ReportRulesMeaning | controllers/partner-gic-commission.controller.js:319-323 | no rules when the partner has no set; otherwise the items of a set whose key string is the greatest |
| PartnerGic.Report | controllers/partner-gic-commission.controller.js:279-419 | 400 without a partner, 404 for an unknown partner, otherwise one row per policy priced against the partner's latest rules |
| PartnerHealth.N | controllers/partner-health-commission.controller.js:33-39 | the result is never "", "0-max" or "null"; it is "all" exactly when the normalised value is "", "0-max", "null" or "all" |
| PartnerHealth.NIdempotent | controllers/partner-health-commission.controller.js:33-39 | reading a value twice is reading it once |
| PartnerHealth.WildcardsAgree | controllers/partner-health-commission.controller.js:35-37 | "", "All", "0-Max", "null" and " ALL " all read as "all" |
| PartnerHealth.HealthKeyIsMatching | controllers/partner-health-commission.controller.js:42-61 | two rules share a key exactly when their dealers agree under `n` and `areRulesMatchingHealth` accepts them |
| PartnerHealth.Sanitize | controllers/partner-health-commission.controller.js:186-200 | defaults fill the dealer, policy type, term and SA range; the net flags are unified; the one-shot flag is kept |
| PartnerHealth.SanitizeReads | controllers/partner-health-commission.controller.js:186-200 | company, product, policy type, term and SA range read the same under `n` as the request's, the defaults being spellings of "all" |
| PartnerHealth.SanitizeAll | controllers/partner-health-commission.controller.js:186 | every item sanitised, one for one |
| PartnerHealth.ClearFlag | controllers/partner-health-commission.controller.js:206-209 | the cleared item never carries the one-shot flag |
| PartnerHealth.HealthMergeLawful | controllers/partner-health-commission.controller.js:63-71 | the merge overwrites percent, the net flags and the one-shot flag only (not `fixed`), so it keeps keys and later items win |
| PartnerHealth.Save | controllers/partner-health-commission.controller.js:178-270 | the save handler's response and the documents afterwards are those of the save's reference result |
| PartnerHealth.SaveOutcome | controllers/partner-health-commission.controller.js:183-266 | without a name, a readable date or an item list the answer is 400 with nothing written; otherwise, an empty list included, 200 exactly when the saver's write does not fail and its merged list has a dealer, company and product on every rule, and, with a flagged rule, the same holds for every other Active partner; 500 otherwise (lines 183 and 212-266); which writes throw is decided by the required dealer, company and product of the schema in models/partnerhealthcommission.js |
| PartnerHealth.SavedOutcome | controllers/partner-health-commission.controller.js:212-259 | the same on the cleaned date and list: never 400, and 200 exactly under those conditions |
| PartnerHealth.SanitizeKeepsFlags | controllers/partner-health-commission.controller.js:186-200 | some sanitised rule is flagged exactly when some submitted rule is |
| PartnerHealth.EmptySaveCreatesEmptySet | controllers/partner-health-commission.controller.js:212-219 | saving an empty list for a partner whose write does not fail and whose stored list is complete answers 200, and the partner's set for the date exists holding what it held (empty when it was new) |
| PartnerHealth.SaveNeverStoresFlag | controllers/partner-health-commission.controller.js:206-241 | no stored rule keeps the one-shot flag |
| PartnerHealth.SavePropagatesFlagged | controllers/partner-health-commission.controller.js:224-259 | after a successful save with flagged rules, every other Active partner's set for the date holds them merged in |
| PartnerHealth.DealerPercent | controllers/partner-health-commission.controller.js:113 | a non-zero percent is shown as is; a zero percent falls back to the maximum percent |
| PartnerHealth.DealerRule | controllers/partner-health-commission.controller.js:109-119 | the entry carries the dealer's name and dealer percent, and defaults that read the same under `n` |
| PartnerHealth.RowsOfDoc | controllers/partner-health-commission.controller.js:104-143 | one row per dealer rule of the document, in order |
| PartnerHealth.RowForMeaning | controllers/partner-health-commission.controller.js:143-155 | each row keeps its dealer rule and shows the first matching saved rule's percent, net flag and one-shot flag, or 0, the rule's net flag and no flag without one |
| PartnerHealth.GetViewMeaning | controllers/partner-health-commission.controller.js:80-173 | 400 without a name or date; 500 with no rows when `new Date(date)` is an Invalid Date (lines 88-93, 169-172); otherwise exactly the rows of each dealer's latest set on or before the day, in dealer, company, product order |
| PartnerNonMotor.RangeKeyMeaning | controllers/partner-nonmotor-commission.controller.js:30-38 | a given range text that is not "all" is the range part, normalised; otherwise "all" exactly when min is 0 and max exceeds 90000000, and "min-max" else |
| PartnerNonMotor.RangeWildcards | controllers/partner-nonmotor-commission.controller.js:31-36 | no range at all, the text "All", and the default bounds 0 and 999999999 all give "all" |
| PartnerNonMotor.RangeOfWholeBounds | controllers/partner-nonmotor-commission.controller.js:37 | whole bounds that are not the wildcard show as "lo-hi" |
| PartnerNonMotor.RangeTextMatchesBounds | controllers/partner-nonmotor-commission.controller.js:31-37 | the range text "0-5" and the bounds 0 and 5 give the same range part |
| PartnerNonMotor.BlankRangeIsNoWildcard | controllers/partner-nonmotor-commission.controller.js:31-32 | a range text of spaces is truthy and normalises to "", while an empty one gives "all" |
| PartnerNonMotor.MatchKeyOfNormalized | controllers/partner-nonmotor-commission.controller.js:26-29 | the key sees the text fields only through their trimmed lower-case form |
| PartnerNonMotor.NumberTextNoBar | controllers/partner-nonmotor-commission.controller.js:37 | printed bounds contain no '\|' |
| PartnerNonMotor.MatchKeyExact | controllers/partner-nonmotor-commission.controller.js:25-40 | for rules without '\|' in their fields, two keys are equal exactly when all five parts agree |
| PartnerNonMotor.SharedKey | controllers/partner-nonmotor-commission.controller.js:39 | rules whose parts differ only in where a '\|' sits share a key |
| PartnerNonMotor.BarInFieldCollides | controllers/partner-nonmotor-commission.controller.js:39 | a dealer "a\|b" with company "c" and a dealer "a" with company "b\|c" get the same key |
| PartnerNonMotor.PercentsAgree | controllers/partner-nonmotor-commission.controller.js:57-96 | on numbers, the saver's `parseFloat(percent \|\| partnerPercent) \|\| 0` and the targets' `percent \|\| partnerPercent \|\| 0` agree |
| PartnerNonMotor.NonMotorMergeLawful | controllers/partner-nonmotor-commission.controller.js:92-103 | the propagation overwrites only `percent` of a key match and appends otherwise, so keys are kept and later rules win |
| PartnerNonMotor.Stored | models/partnernonmotorcommission.js:5-22 | the schema's defaults: a missing dealer becomes "Unknown", a missing policy type "All", missing bounds 0 and 99999999; every other field is kept |
| PartnerNonMotor.StoredKeepsKey | controllers/partner-nonmotor-commission.controller.js:25-40 | a rule that already holds the defaulted fields keeps its key when stored |
| PartnerNonMotor.NewRuleKeyMoves | controllers/partner-nonmotor-commission.controller.js:25-40 | a rule without a policy type is stored under a different key from the one it is looked up by |
| PartnerNonMotor.Save | controllers/partner-nonmotor-commission.controller.js:45-115 | the save handler's response and the documents afterwards are those of the save's reference result |
| PartnerNonMotor.SaveOutcome | controllers/partner-nonmotor-commission.controller.js:50-113 | 400 with nothing written without a name, a date key or items; otherwise 500 exactly when the saver's write or, with a flagged rule, another partner's write throws (lines 50-52 and 111-113) |
| PartnerNonMotor.SaverReplaced | controllers/partner-nonmotor-commission.controller.js:55-65 | unless its write throws, the saver's set holds exactly the cleaned items with the flag off, whatever it held before |
| PartnerNonMotor.SaveNeverStoresFlag | controllers/partner-nonmotor-commission.controller.js:58-96 | no stored rule keeps the one-shot flag, whichever writes failed |
| PartnerNonMotor.SavePropagatesFlagged | controllers/partner-nonmotor-commission.controller.js:67-106 | after a successful save, every other distinct partner the scan found holds the strictly flagged rules merged into its set for the date |
| PartnerNonMotor.SaveRepeat | controllers/partner-nonmotor-commission.controller.js:92-103 | when every flagged rule already holds its stored form, sending the same save again succeeds and leaves the store as it was: no partner gains a rule |
| PartnerNonMotor.RepeatAppendsAgain | controllers/partner-nonmotor-commission.controller.js:92-103 | a flagged rule without a policy type is appended to the target again by each repeat of the save |
| PartnerNonMotor.DealerRulesOf | controllers/partner-nonmotor-commission.controller.js:131-133 | the rules of the dealer's newest set, or none without a set |
| PartnerNonMotor.CollectMasters | controllers/partner-nonmotor-commission.controller.js:128-135 | the loop over the distinct dealers pushes each one's newest rules |
| PartnerNonMotor.GetBreakdown | controllers/partner-nonmotor-commission.controller.js:120-179 | the handler's rows are those of the view's reference definition |
| PartnerNonMotor.RowForMeaning | controllers/partner-nonmotor-commission.controller.js:162-171 | each master rule shows the percent and flag of the first saved rule with its key, or 0 and no flag when none has it |
| PartnerNonMotor.MasterRulesMeaning | controllers/partner-nonmotor-commission.controller.js:127-135 | every master rule is a rule of its dealer's newest set, and every such rule is a master rule |
| PartnerNonMotor.NewestOfDealer | controllers/partner-nonmotor-commission.controller.js:131 | the newest set of a dealer is one of its sets and none of its sets is dated later |
| PartnerNonMotor.GetViewMeaning | controllers/partner-nonmotor-commission.controller.js:123-171 | no rows without a name or date; otherwise one row per master rule, laid over the partner's set in force (exact date, else latest earlier) |
| PartnerNonMotor.SaveThenGet | controllers/partner-nonmotor-commission.controller.js:61-138 | what a successful save stores is what a GET for the same partner and date reads (lines 61-65 and 138) |
| PartnerLic.TermKeyMeaning | controllers/partner-lic-commission.controller.js:29-30 | the term part is empty exactly when the normalised term is empty, "-" or "0", and is the normalised term otherwise |
| PartnerLic.TermWildcards | controllers/partner-lic-commission.controller.js:30 | no term, "-" and "0" are the same term |
| PartnerLic.LicKeyExact | controllers/partner-lic-commission.controller.js:25-32 | for rules without '\|', two keys are equal exactly when normalised dealer, company and plan and the term parts agree |
| PartnerLic.KeyOfNormalized | controllers/partner-lic-commission.controller.js:26-29 | the key sees the text fields only through their normal form |
| PartnerLic.LicMergeLawful | controllers/partner-lic-commission.controller.js:80-90 | for rules that name their dealer, a key match gets `percent` and `fixed` overwritten and other rules are appended, so keys are kept and later rules win |
| PartnerLic.Stored | models/partnerliccommission.js:5-17 | the schema's defaults: a missing dealer becomes "Unknown", missing numbers 0; every other field is kept |
| PartnerLic.ClearFlagKeepsKey | controllers/partner-lic-commission.controller.js:25-32 | storing a rule that names its dealer keeps its key |
| PartnerLic.ClearFlagMovesUnnamed | controllers/partner-lic-commission.controller.js:25-32 | a rule without a dealer is stored under a different key, that of "Unknown" |
| PartnerLic.Save | controllers/partner-lic-commission.controller.js:37-100 | the save handler's response and the documents afterwards are those of the save's reference result |
| PartnerLic.SaveOutcome | controllers/partner-lic-commission.controller.js:42-99 | 400 with nothing written without a name, a date key or items; otherwise 500 exactly when the saver's write or, with a flagged rule, another partner's write throws (lines 42-44 and 96-99) |
| PartnerLic.SaverReplaced | controllers/partner-lic-commission.controller.js:47-53 | unless its write throws, the saver's set holds exactly the submitted items with the flag off, whatever it held before |
| PartnerLic.SaveNeverStoresFlag | controllers/partner-lic-commission.controller.js:47-72 | no stored rule keeps the one-shot flag, whichever writes failed |
| PartnerLic.SavePropagatesFlagged | controllers/partner-lic-commission.controller.js:55-92 | after a successful save, every other distinct partner the scan found holds the strictly flagged rules merged into its set for the date |
| PartnerLic.SaveRepeat | controllers/partner-lic-commission.controller.js:80-90 | when every flagged rule names its dealer, sending the same save again succeeds and leaves the store as it was |
| PartnerLic.DealerRulesOf | controllers/partner-lic-commission.controller.js:116-118 | the dealer's rules as master rules, or none without a set |
| PartnerLic.CollectMasters | controllers/partner-lic-commission.controller.js:113-120 | the loop over the distinct dealers pushes each one's rules |
| PartnerLic.GetBreakdown | controllers/partner-lic-commission.controller.js:105-163 | the handler's rows are those of the view's reference definition |
| PartnerLic.RowForMeaning | controllers/partner-lic-commission.controller.js:147-155 | percent is the saved value or 0; fixed the saved value, else the master rule's, else 0; the flag the saved value or false |
| PartnerLic.TermDashMatchesZero | controllers/partner-lic-commission.controller.js:30-153 | a saved rule with term "-" is the saved rule of a master rule with term "0" (lines 30 and 147-153) |
| PartnerLic.MasterRulesMeaning | controllers/partner-lic-commission.controller.js:112-120 | every master rule is a rule of its dealer's set, and every rule of every dealer's set is a master rule |
| PartnerLic.GetViewMeaning | controllers/partner-lic-commission.controller.js:108-156 | no rows without a name or date; otherwise one row per master rule overlaid with the saved rule of the partner's set in force |
| PartnerLic.SaveThenGet | controllers/partner-lic-commission.controller.js:49-123 | what a successful save stores is what a GET for the same partner and date reads (lines 49-53 and 123) |
| DealerLic.Save | controllers/dealer-lic-commission.controller.js:18-47 | the save handler's response and the documents afterwards are those of the save's reference result |
| DealerLic.SaveOutcome | controllers/dealer-lic-commission.controller.js:24-46 | 400 exactly without a dealer or date key, 500 exactly when the write throws; nothing is written unless the answer is 200 |
| DealerLic.SaveStores | controllers/dealer-lic-commission.controller.js:29-40 | the (dealer, date key) document holds the items afterwards, replacing what was there |
| DealerLic.SaveTwice | controllers/dealer-lic-commission.controller.js:29-40 | saving the same set twice leaves what saving it once leaves |
| DealerLic.FirstSetMeaning | controllers/dealer-lic-commission.controller.js:57-60 | `fetchLatest` takes one of the dealer's sets with none of the dealer's stored before it, since the `updatedAt` it sorts on is not a schema field; none for a dealer without sets; the partner view in controllers/partner-lic-commission.controller.js reads a dealer's master rules from that same first set in store order |
| DealerLic.LatestIsFirstSaved | controllers/dealer-lic-commission.controller.js:29-60 | after sets for two dates are saved one after the other, `fetchLatest` gives the first one's items, not the newer one's |
| DealerLic.SaveThenBreakdown | controllers/dealer-lic-commission.controller.js:29-65 | saving a set and reading back the same date gives the saved items |
| DealerLic.Matches | controllers/dealer-lic-commission.controller.js:132-134 | exactly the sets with a rule for the plan |
| DealerLic.Entries | controllers/dealer-lic-commission.controller.js:158-163 | one entry per set, in order |
| DealerLic.GetLatestDealers | controllers/dealer-lic-commission.controller.js:121-172 | the handler's loop gives the reference result |
| DealerLic.LatestDealersMeaning | controllers/dealer-lic-commission.controller.js:125-165 | 400 without plan or start date; otherwise one entry per dealer with a set for the plan, each from its set with the greatest date string, whatever the start date |
| DealerLic.EntriesDistinct | controllers/dealer-lic-commission.controller.js:152-153 | no dealer has two entries |
| DealerLic.EntriesCover | controllers/dealer-lic-commission.controller.js:147-165 | every dealer with a set for the plan has an entry |
| DealerLic.EntriesLatest | controllers/dealer-lic-commission.controller.js:145-163 | every entry comes from the dealer's matching set with the greatest date string |
| DealerNonMotor.ApplicableRuleMeaning | controllers/dealer-nonmotor-commission.controller.js:23-47 | none for an invalid date; otherwise the result of the latest entry on or before the risk day |
| DealerNonMotor.ApplicableOnMeaning | controllers/dealer-nonmotor-commission.controller.js:27-46 | none without an entry on or before the day; otherwise the first product rule of a latest such entry, compared lower-cased, and none when that entry lacks the product, with no fallback to older entries |
| DealerNonMotor.LatestOfValid | controllers/dealer-nonmotor-commission.controller.js:27-33 | with an entry on or before the day, the sort's head is a latest one |
| DealerNonMotor.ProductRule | controllers/dealer-nonmotor-commission.controller.js:35-37 | a rule is found exactly when one of the entry's rules is for the product, and it is the first such |
| DealerNonMotor.ApplicableOwner | controllers/dealer-nonmotor-commission.controller.js:41-46 | the result from a dealer's own entries names that dealer |
| DealerNonMotor.GetDealerPayout | controllers/dealer-nonmotor-commission.controller.js:209-259 | the map-filling loop and the walk give the payout's reference result |
| DealerNonMotor.GroupByDealer | controllers/dealer-nonmotor-commission.controller.js:221-228 | after the scan each dealer seen maps to its records in scan order, and the dealers are kept in the order first seen |
| DealerNonMotor.WalkGroups | controllers/dealer-nonmotor-commission.controller.js:231-248 | one entry per dealer whose group has an applicable rule, in the map's order |
| DealerNonMotor.GroupedStep | controllers/dealer-nonmotor-commission.controller.js:224-229 | one scan step creates the dealer's list when new and pushes the record onto it |
| DealerNonMotor.RowsForMeaning | controllers/dealer-nonmotor-commission.controller.js:230-248 | for any per-dealer lookup that names its own dealer, each entry is the lookup of a listed dealer and each listed dealer with a result has its entry |
| DealerNonMotor.RowsForDistinct | controllers/dealer-nonmotor-commission.controller.js:230-248 | for such a lookup, distinct dealers give entries of distinct dealers |
| DealerNonMotor.EntryFnNamesOwner | controllers/dealer-nonmotor-commission.controller.js:41-46 | the lookup in a dealer's own group names that dealer |
| DealerNonMotor.PayoutRowsMeaning | controllers/dealer-nonmotor-commission.controller.js:233-248 | each entry is the applicable rule of a listed dealer, and each listed dealer with an applicable rule has its entry |
| DealerNonMotor.PayoutRowsDistinct | controllers/dealer-nonmotor-commission.controller.js:222-248 | distinct dealers give entries of distinct dealers |
| DealerNonMotor.DealerPayoutMeaning | controllers/dealer-nonmotor-commission.controller.js:213-248 | empty without product or risk date; otherwise exactly one entry per dealer with an applicable rule |
| DealerNonMotor.Save | controllers/dealer-nonmotor-commission.controller.js:52-87 | the save handler's response and the documents afterwards are those of the save's reference result |
| DealerNonMotor.SaveOutcome | controllers/dealer-nonmotor-commission.controller.js:57-86 | 400 exactly without dealer or valid date, nothing written; 200 exactly when neither write throws; a throwing `deleteMany` writes nothing; a throwing `create` answers 500 with the dealer's sets of the day gone and every other set in place |
| DealerNonMotor.SaveLeavesOne | controllers/dealer-nonmotor-commission.controller.js:64-74 | after a successful save the dealer has exactly one set on the day, holding the items, and every other set is still there |
| DealerNonMotor.DatedOn | controllers/dealer-nonmotor-commission.controller.js:109-113 | exactly the documents dated on the day |
| DealerNonMotor.BreakdownLatest | controllers/dealer-nonmotor-commission.controller.js:100-117 | `fetchLatest` and an invalid date give the dealer's latest set; a valid date gives that day's set; no set gives no rules |
| DealerNonMotor.SaveThenBreakdown | controllers/dealer-nonmotor-commission.controller.js:64-117 | saving a set for a day and reading that day back gives the saved rules (lines 64-74 and 107-117) |
| DealerExpense.InDayIsSameDay | controllers/dealerExpenseController.js:58-66 | the `$gte`/`$lte` window of a moment's day holds exactly the moments of that day |
| DealerExpense.UnifyMeaning | controllers/dealerExpenseController.js:75-80 | both net flags become `OnNet \|\| percentOnNet`; nothing else changes; unifying twice is unifying once |
| DealerExpense.SaveBreakdown | controllers/dealerExpenseController.js:47-88 | the save handler's response and the documents afterwards are those of the save's reference result |
| DealerExpense.SaveBreakdownOutcome | controllers/dealerExpenseController.js:51-87 | 400 with nothing written without dealer or date; otherwise 201 exactly with a parsed date, an items list and no throwing write, else 500; only a missing items list or a throwing `create` writes without answering 201 |
| DealerExpense.SaveBreakdownLeavesOne | controllers/dealerExpenseController.js:55-81 | after a 201 the trimmed dealer has exactly one set on the day, with unified net flags, and every other set is still there; when `items.map` or the `create` throws after the delete, the dealer has no set on the day |
| DealerExpense.CeilingMeaning | controllers/dealerExpenseController.js:395-403 | the ceiling is the percent of the first dealer rule matching company, product, coverage, fuel and model, and 0 when none matches |
| DealerExpense.MapCheckedPasses | controllers/dealerExpenseController.js:392-415 | a map that throws on a failing item succeeds exactly when every item passes |
| DealerExpense.MapCheckedItems | controllers/dealerExpenseController.js:392-415 | when it succeeds, it maps every item, one for one |
| DealerExpense.ValidatedMeaning | controllers/dealerExpenseController.js:392-415 | the batch passes exactly when no item's partner percent exceeds its ceiling; the checked items carry the ceiling and the partner percent, and nothing else changes |
| DealerExpense.CheckAll | controllers/dealerExpenseController.js:392-415 | the loop stops at the first failing item, as the throw does, and otherwise returns every mapped item |
| DealerExpense.Validate | controllers/dealerExpenseController.js:392-415 | the validation loop gives the reference validation |
| DealerExpense.AddPartnerExpense | controllers/dealerExpenseController.js:369-435 | the handler's response and the documents afterwards are those of the reference result |
| DealerExpense.AddOutcome | controllers/dealerExpenseController.js:373-434 | 400 with nothing written without partner, dealer or date, without the dealer's breakdown on the day, when an item exceeds its ceiling, or when the write throws; otherwise 200 |
| DealerExpense.AddStores | controllers/dealerExpenseController.js:417-428 | after a 200, the partner's document for the dealer and day holds the checked items, each with a partner percent not above its ceiling; every other document is where it was |
| DealerExpense.PaddedNameMissesBreakdown | controllers/dealerExpenseController.js:55-385 | a dealer name with surrounding spaces does not find the breakdown its own save stored under the trimmed name (lines 55 and 381-385) |
| DealerExpense.Rows | controllers/dealerExpenseController.js:475-489 | one row per dealer rule, in order |
| DealerExpense.ByCompanyProductCoverageWeak | controllers/dealerExpenseController.js:492-501 | the comparator is a strict weak order |
| DealerExpense.ViewMeaning | controllers/dealerExpenseController.js:449-508 | no rows without dealer or date; 500 and no rows for a date that does not parse; no rows without the dealer's breakdown on the day; otherwise a permutation of the rows, sorted by company, product, coverage |
| DealerExpense.RowForMeaning | controllers/dealerExpenseController.js:477-488 | each row keeps the dealer rule and its percent, and shows the partner percent of the first saved item with the same company, product, coverage and fuel, or 0 |
| DealerExpense.ViewIgnoresModel | controllers/dealerExpenseController.js:395-482 | the view ignores the vehicle model the save checks: rules differing only in it show the same partner percent (lines 395-400 and 477-482) |
| Track.DateField | controllers/track.controller.js:32-35 | the field is whitelisted; a whitelisted request is kept, any other gives `policyIssueDate` |
| Track.SearchFieldsByType | controllers/track.controller.js:59-99 | any type but LIC, NONMOTOR and HEALTH searches GIC's fields; only those search `vehicleNo`; every type searches `policyNo` first and `customerName` |
| Track.BuildFilters | controllers/track.controller.js:9-109 | the step-by-step builder gives the reference filter |
| Track.AddDealer | controllers/track.controller.js:19-27 | the dealer block appends the dealer condition exactly when the trimmed dealer is non-empty, after the conditions already there |
| Track.AddDate | controllers/track.controller.js:29-53 | the date block appends the date condition exactly when `from` or `to` is given, on a whitelisted field |
| Track.AddSearch | controllers/track.controller.js:55-101 | the search block appends the type's search condition exactly when the trimmed search is non-empty |
| Track.SearchCondition | controllers/track.controller.js:59-99 | the `switch (type)` gives the `$or` over the type's search fields for the given pattern, led by `policyNo` |
| Track.AllHoldAppend | controllers/track.controller.js:104-106 | a conjunction of two lists holds exactly when both do |
| Track.DateCondMeaning | controllers/track.controller.js:37-51 | the date condition holds exactly when the field is at or after the start of the `from` day, if given, and at or before the end of the `to` day, if given |
| Track.FiltersMeaning | controllers/track.controller.js:9-109 | a record passes exactly when its partner equals a non-blank partner, its dealer or dealerName equals a non-blank dealer, its date field is within the bounds when either bound is given, and one of the type's search fields matches a non-blank search |
| Track.AndPresent | controllers/track.controller.js:15-106 | `$and` is there exactly when some condition was added; the partner filter exactly for a non-blank partner; no parameters give the empty filter (lines 15-17 and 104-106) |
| Track.LicDateFieldDefault | controllers/track.controller.js:292-296 | LIC's date filter defaults to `issueDate`, while the raw query would filter on `policyIssueDate` |
| Track.DateCondListed | controllers/track.controller.js:30-51 | with a bound given, the date condition is among the `$and` conditions |
| Track.StandardizeBalance | controllers/track.controller.js:114-262 | null exactly for a null document; otherwise balance = premium − amount received (totalPremium − payment for non-motor), missing values counting as 0 (lines 114-191 and 262) |
| Track.StandardizeDefaults | controllers/track.controller.js:114-264 | no text column is empty: a column whose sources are all missing shows "-", otherwise the first source present |
| Track.AgentByType | controllers/track.controller.js:114-264 | GIC shows only a populated partner's name, the other types fall back to the stored partner value |
| Track.StandardRows | controllers/track.controller.js:355-358 | one standardised row per document, in order |
| Track.TrackAllMeaning | controllers/track.controller.js:339-367 | the list holds every row of the four types, each once, sorted newest `createdAt` first |
| TrackClient.Entity | frontend/assets/js/track.js:228-229 | every escaped character becomes a non-empty replacement, which starts with `&` exactly for the eight special characters |
| TrackClient.EscapeTextEmpty | frontend/assets/js/track.js:228-229 | escaping gives the empty text only for the empty text |
| TrackClient.EscapeHtmlEmpty | frontend/assets/js/track.js:226-231 | null, undefined, "", false and NaN escape to ""; 0 escapes to "0"; every other value to something non-empty |
| TrackClient.EscapeClean | frontend/assets/js/track.js:228-230 | text without special characters is left as it is |
| TrackClient.EscapeSafe | frontend/assets/js/track.js:228-230 | the escaped text holds no special character other than the `&` starting an entity |
| TrackClient.FirstChar | frontend/assets/js/track.js:228-230 | the reader of an escaped text consumes at least one and at most all of its characters |
| TrackClient.FirstCharOf | frontend/assets/js/track.js:229 | an escaped character is read back whole |
| TrackClient.UnescapeEntity | frontend/assets/js/track.js:228-230 | reading back one escaped character gives that character and leaves the rest |
| TrackClient.UnescapeEscape | frontend/assets/js/track.js:226-231 | the escape loses nothing: reading the entities back gives the original text |
| TrackClient.QuotedAll | frontend/assets/js/track.js:211 | every cell of the row is quoted, one for one |
| TrackClient.ReadQuoted | frontend/assets/js/track.js:211 | reading a quoted cell consumes at least its closing quote |
| TrackClient.ReadQuotedOf | frontend/assets/js/track.js:211 | a cell with its quotes doubled, then a closing quote, reads back as the cell |
| TrackClient.DecodeQuotedCells | frontend/assets/js/track.js:211 | the comma-joined quoted cells read back as the cells |
| TrackClient.DecodeEncodeRow | frontend/assets/js/track.js:211 | a data line reads back, under the quoting rules of section 2 of RFC 4180, as the row's cells: commas and quotes inside a cell survive |
| TrackClient.JoinStarts | frontend/assets/js/track.js:210-211 | a join of parts starts with the first part's first character |
| TrackClient.CleanCell | frontend/assets/js/track.js:205 | a cleaned cell has no newline |
| TrackClient.CleanRow | frontend/assets/js/track.js:205 | every cell of the row is cleaned, one for one |
| TrackClient.DataLinesSnoc | frontend/assets/js/track.js:211 | one more row adds its encoded line and a newline at the end |
| TrackClient.CollectVisible | frontend/assets/js/track.js:202-207 | the loop collects the cleaned cells of the rows not hidden, in table order |
| TrackClient.ExportVisibleToCsv | frontend/assets/js/track.js:198-211 | the exported text is the header line then one line per visible row |
| TrackClient.VisibleRowsMeaning | frontend/assets/js/track.js:203-206 | every row not hidden is exported, cleaned, and every exported row comes from a row not hidden |
| TrackClient.EncodeRowOneLine | frontend/assets/js/track.js:205-211 | no data line holds a newline |
| TrackClient.DoubleQuotesKeeps | frontend/assets/js/track.js:211 | doubling quotes adds no character other than quotes |
| TrackClient.JoinKeeps | frontend/assets/js/track.js:210-211 | joining adds no character other than the separator |
| TrackClient.LinesAreJoined | frontend/assets/js/track.js:210-211 | the file is the header and the encoded rows joined by newlines, with a final newline |
| TrackClient.EncodedAll | frontend/assets/js/track.js:211 | every row is encoded, one for one |
| TrackClient.ExportMeaning | frontend/assets/js/track.js:198-211 | split at its newlines, the file is the header line, then one line per visible row that reads back as that row's cleaned cells |
| TrackClient.VisibleRowsClean | frontend/assets/js/track.js:205 | no exported cell holds a newline |
| TrackClient.KeepThen | frontend/assets/js/track.js:82-92 | filtering twice keeps the rows passing both tests |
| TrackClient.KeepSame | frontend/assets/js/track.js:82-92 | filters with the same verdict on every row keep the same rows |
| TrackClient.KeepAppend | frontend/assets/js/track.js:82-92 | filtering a concatenation filters each part, and the kept rows keep their order |
| TrackClient.KeepCount | frontend/assets/js/track.js:82-92 | a row is kept as often as it occurs when it passes, and never otherwise |
| TrackClient.KeepAll | frontend/assets/js/track.js:82 | a test every row passes keeps the rows as they are |
| TrackClient.ApplyStep | frontend/assets/js/track.js:84-92 | an applied step keeps, of the rows meeting the earlier criteria, those passing its test |
| TrackClient.SkipStep | frontend/assets/js/track.js:84-92 | a step whose input is not given keeps every row |
| TrackClient.FilterStep | frontend/assets/js/track.js:84-92 | one step narrows the rows to those meeting one more criterion |
| TrackClient.ApplyTrackFilters | frontend/assets/js/track.js:75-95 | the rows left are the loaded rows meeting all six criteria, in order |
| TrackClient.FilterMeaning | frontend/assets/js/track.js:75-95 | a row is left, as often as it was loaded, exactly when its type (unless "all"), partner, company, dealer and issue date from/to match each given input; filtering keeps the rows' order |
| TrackClient.PartnerFilterIsSamplePartner | frontend/assets/js/track.js:86-103 | with a partner chosen, only rows of "Sample Partner" are left, whichever partner it is |
| Renewals.BuildRenewalFilter | controllers/renewals.controller.js:6-26 | `partnerId`, `dealer` and `insuranceCompany` are set exactly when given, to the given text; `policyEndDate` exactly when `from` or `to` is, with `$gte` only from `from` and `$lte` only from `to`; no other key |
| Renewals.RenewalFilter | controllers/renewals.controller.js:7-25 | no parameters give the empty filter |
| Renewals.BuildIsRenewalFilter | controllers/renewals.controller.js:6-26 | the successive assignments build exactly the reference filter |
| Renewals.RenewalFilterMeaning | controllers/renewals.controller.js:10-23 | a policy is selected exactly when its partner, dealer and company equal the given ones, each only if given, and its end date is within the given bounds, present whenever a bound is given |

## Left out

- Mongoose and HTTP: `find`/`findOne`/`save`/`deleteMany`/`findOneAndUpdate`/`populate`/`distinct` become operations on an in-memory `Collection` or a sequence of records, and responses become result datatypes.
- Partner discovery, meaning the collection-wide scan and `Master.find`, is an input list of partner names.
- Regular-expression search is an uninterpreted parameter `re(pattern, value)` of the track filters. The reports' policy query (dealers or partner, companies, date range and search, `controllers/dealerExpenseController.js:212-233`, `controllers/partner-gic-commission.controller.js:281-310`) is not modelled: the reports take the selected policies as input.
- JavaScript `Date` becomes integer day ordinals and millisecond moments, with the server's timezone taken as UTC: `setHours`, `Date.UTC` and the local/UTC shift of `getStartOfDay`.
- IEEE floating point: numbers are exact reals, so `toFixed(2)` rounding and float error are not modelled.
- Payout amounts are rounded to cents, halves away from zero (`GicScoring.Cents`); the float error of `toFixed(2)` is not modelled.
- `parseFloat` of exponents and `Infinity` is not modelled: only plain signed decimal numerals are read. `parseInt` (`Text.ParseInt`) reads decimal digits and the "0x" hexadecimal prefix only.
- An invalid-date bound of a date filter is modelled as matching nothing.
- Mongoose casting and schema stripping are not modelled, and schema defaults and `required` only for the partner item lists.
  - For example, `netPremiumRange` is dropped by the partner schema.
  - Request texts use "" for a field the request leaves out, so the model cannot tell an omitted field from an explicit "" or `null`. It applies the schema default to both. Mongoose applies a default only to an omitted field, and `required` refuses an explicit "".
  - `save()` is taken to validate every rule of the list it writes; `findOneAndUpdate` validates nothing.
  - The renewals filter keeps the request's date texts, and the store's text-to-date cast is the `toDate` parameter.
- The dealer LIC save sets `updatedAt`, which its schema does not declare, so the store drops it; the model still stamps every record with `now` (an input, not a clock reading), but nothing about dealer LIC sets reads that stamp.
- A record without the sort key keeps store order; JavaScript's placement of `undefined` keys is not modelled.
- `localeCompare` is code-unit order on the ASCII-lower-cased text.
- `distinct` returns names in first-seen order.
- The dealer plain-object lookup `uniqueDealers[name]` is a set of names, so prototype keys such as "constructor" are not modelled.
- Expense kinds other than the GIC breakdown of `dealerExpenseController.js` are not modelled.
- The dealer GIC report handler is not modelled: it refers to an undefined `GicEntry` (`controllers/dealerExpenseController.js:236`). Its scoring loop is the shared `GicScoring`.
- `controllers/dealerExpenseController.js:2` imports a model file that is not part of this repository. The handlers' pure parts are modelled anyway.
- The dealer-health controller (`HealthCommission` against an import of `healthcommission`) is not part of this model.
- The per-type track handlers' `find`/`sort`/`populate` are not modelled. Only their filters, the standardised rows and `trackAll`'s merge and sort are.
- `standardizeEntry` columns outside the shared `Track.Row` are not modelled, and `createdAt` is taken to be present. These are the pass-through ids and raw dates, and the type-specific columns the source defaults with `|| "-"`, `|| null` or `Number(x || 0)`:
  - LIC `planName`, `sumAssured` and `payMode` (`controllers/track.controller.js:128-135`);
  - non-motor `policyType` and `sumInsured` (`controllers/track.controller.js:157-163`), health `sumAssured` (`controllers/track.controller.js:186`);
  - GIC `policyType`, `coverageType`, `insuranceYear`, the vehicle, premium-part, payment and previous-policy columns from `vehicleNo` to `pypEndDate` (`controllers/track.controller.js:210-258`).
- The first `applyTrackFilters` (`frontend/assets/js/track.js:16-30`) is not modelled: the second declaration shadows it.
- DOM rendering, the `Blob` download and the file name are not modelled.
- `${x}` of a number (`Text.NumberText`) writes at most 20 fraction digits of a real, which is enough for the values of the model.
- GicRules.AreRulesMatching: compares the `ccRange`/`ncbRange` texts only; the `ccFrom`/`ccTo` fallback of `getRange` (`controllers/partner-gic-commission.controller.js:39-44`) is not modelled, because the item datatype has no such fields.
- Text.ToLower: lower-cases ASCII letters only; JavaScript's Unicode case mapping is not modelled, because names in the store are ASCII in practice.
- Text.Trim: removes ASCII whitespace only (space, tab, line feed, carriage return, vertical tab, form feed); the other Unicode spaces that `trim()` removes are not modelled.
- PartnerLic.Save: the rule schema's only required field, the dealer, has a default, and a dealer of "" is read as omitted and stored as "Unknown"; a target's `save()` refusing an explicit "" dealer with a 500 is not modelled.
- PartnerNonMotor.Save, PartnerHealth.Save: a dealer of "" is likewise read as omitted and stored as "Unknown", so a write refused for an explicit "" dealer is not modelled; an empty company or product is refused as modelled.
- PartnerNonMotor.SaveRepeat: promised only when every flagged rule already holds its stored form; otherwise the repeat appends again (`PartnerNonMotor.RepeatAppendsAgain`).
- PartnerLic.SaveRepeat: promised only when every flagged rule names its dealer, since a rule without one is stored under the key of "Unknown".
- PartnerGic.SaveThenRead, PartnerGic.SaveThenView: promised only when the saver's merged list passes the schema; otherwise the save throws.
- A query parameter given twice, which Express turns into an array, is not modelled: parameters are single texts.
- The CRUD, form, auth, settings and route files, and the other frontend scripts, are not part of this model.
