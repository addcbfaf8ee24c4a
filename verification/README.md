# Proofs about the reversible anonymiser and two build scripts

This project models, in Dafny, the part of the repository that must not lose or leak text: the
engine under `anonymizer/brikko_anonymizer` that replaces personal data by placeholders such as
`<EMAIL_1>` and later puts the data back. It also models two algorithmic pieces of the
TypeScript scripts under `packages/core/scripts`: a quote-aware bracket scanner, and the
batching and key-tree code of the translation script.

Code that changes state is modelled by classes and methods with the source's own fields and
loops, each proved against a function of the old state. The promises are lemmas about those
functions, over all texts, all detectors, all chunkings and all runs.

- **Placeholders** (`Placeholders`, `Neutralise`, `Text`). Both regular expressions are given
  concretely, with Unicode decimal digits for `\d`. A placeholder has one `<`, its first
  character, and one `>`, its last; every scanning and cutting argument rests on that.
- **Detection, masking, unmasking** (`Detection`, `SelectionByType`, `Mappings`, `Splicing`,
  `Masking`, `RoundTrip`, `Messages`, `MessagePaths`). Spans are selected greedily by priority,
  which is then said type by type; a mutable mapping is threaded through texts and through
  nested messages, where the position of a string alone decides whether it is masked.
- **Streaming** (`Streaming`, `RestoreStreams`). Chunks pass through a 32-character carry
  buffer, and an event loop answers line by line.
- **Disclosure** (`Disclosure`). A masked text gives away exactly the text around the spans, the
  types of the keys and which spans share one: the two-sided statement of what it hides.
- **Policies, pipeline, store, runs** (`Policy`, `PolicyMasking`, `PolicyRoundTrip`,
  `EmergencyMode`, `NameRoundTrip`, `Store`, `Pipelines`, `Runs`). A service step takes each
  workspace's table to its next state; the promises hold after any run of steps.
- **Load watcher** (`DegradedMode`). Three markers and a mode, against a specification over the
  whole history of samples.
- **Checksums** (`Checksums`, `ChecksumFormulas`, `ChecksumErrors`, `ChecksumSwaps`). Exactly which single-digit
  errors each identifier lets through, which swaps of adjacent digits before the check digits,
  and for card numbers which swaps anywhere. Luhn is Annex B of ISO/IEC 7812-1.
- **Scripts** (`ParenScan`, `ParenGrammar`, `Batches`, `Translations`, `NestedMaps`). What the
  scanner and the splitter find is also said of code written out from a syntax tree, without
  the scanner's state.

`dafny verify dfyconfig.toml` checks everything.

## Where code and documents disagree

The model follows the code.

- `anonymizer/tests/test_property_roundtrip.py:67-90` expects, in full mode under the balanced
  profile, every text back after anonymize and restore, up to white space. Placeholders the user
  typed come back with a fullwidth `＜`: when every key has one surface, the input returns
  unchanged exactly when it held no placeholder (`Runs.RoundTripIff`). Names that share a lemma
  restore the first form, so even a text without placeholders can change, and by more than white
  space: `Иванов сказал Иванову`, the masker's own example, comes back as `Иванов сказал Иванов`
  (`NameRoundTrip.FullModeRoundTripCanFail`). It comes back exactly when every key has one
  surface (`NameRoundTrip.RunRestoresAllIff`), unless longer and shorter forms happen to add up
  to the same total length, when it may come back all the same (`NameRoundTrip.LengthsCanCancel`).
- `pii/streaming.py:48` takes 18 characters for the longest placeholder. The buffer is in fact
  enough up to 33 characters and for none longer (`Streaming.StreamAgreesIff`).
- `degraded_mode.py:7` and `anonymizer/docs/DEGRADED_MODE.md:19` promise degraded mode for any
  load above 80 % that lasts 30 s. The thresholds are inclusive, and only a sample below 95 can
  fire the degraded trigger: sampled every 5 s, 85 from 0 to 20 s and 96 at 25 s and 30 s leaves
  the mode full (`DegradedMode.SustainedLoadCanStayFull`). `DegradedMode.ElevatedLoadMode` says
  exactly which mode elevated load leads to, and `DegradedMode.PromiseKeptIff` for which
  timers the promise would hold.
- `anonymizer/docs/DEGRADED_MODE.md:61-66` lists phone numbers as not affected by emergency
  mode. A sixteen-digit run that its checksum refuses is chosen there and can crowd out an
  accepted phone number: of `1112-2222-3333-8999 123-45-67` degraded mode masks the phone number,
  and emergency mode leaves `123-45-67` of it in the text (`EmergencyMode.EmergencyCanUncover`).
  `EmergencyMode.EmergencyKeepsIff` says exactly when every span keeps its place; in any case
  each meets a chosen one (`PolicyRoundTrip.EmergencyMeetsDegraded`).
- `pii/masker.py:179-180` calls the numbers stable across passes within a request. A mapping
  read back from Redis has no counters, so masking with it may overwrite a number in use;
  `Mappings.ReloadedAllKeepIff` says exactly when it does not, and
  `Mappings.ReloadedNameTakesAnothersPlace` gives a name masked before the reload that takes
  another's placeholder after it. No caller in the package masks with a reloaded mapping.
  Freshness is proved of mappings grown from an empty one.
- `policy.py:20-21` says that raw originals need an explicit entry to leave. Tool modes are not
  checked, and every mode but `forbid` and `forward_masked`, a misspelt one included, restores
  originals (`Pipelines.NeverRestoresIff`).
- `Pipeline.anonymize` numbers from 1 on every call, so a later call overwrites the rows of an
  earlier one: the table is last-writer-wins (`Runs.LastWriterWins`).
- `restore` reports wide matches without a row and the stream narrow ones. The restored texts
  agree (`Runs.ThreePathsAgree`); the reports agree for every chunking exactly when all that
  `restore` reports are narrow and at most 33 characters long (`RestoreStreams.ReportsAgreeIff`).
- `pii/checksums.py:108` tests the SNILS residue modulo 101 against 101, which never occurs.
- A batch's running count is 2 per item above its estimate (`Batches.RunningIsEstimate`), so a
  batch may close although the next item would fit: `Batches.ClosedEarlyIff` says when, and
  `Batches.TwoBatchesForOne` is a case under the default budget. An answer that lacks a key whose
  name contains `timed out` counts as a timeout; the model keeps this as
  `Provider.namesTimeout`.

## Model

| member | source | states |
|---|---|---|
| Placeholders.PlaceholderShape | anonymizer/brikko_anonymizer/pii/masker.py:358-360 | every placeholder begins with `<`, ends with `>`, and has neither, nor a fullwidth `＜`, in between |
| Placeholders.PlaceholderInjective | anonymizer/brikko_anonymizer/pii/masker.py:341-347 | `<TYPE_n>` determines type and number, types with underscores included |
| Placeholders.MatchFound | anonymizer/brikko_anonymizer/pipeline.py:86 | at most one match begins at any position and it is found, so both expressions are unambiguous |
| Placeholders.MatchesAreOccurrences | anonymizer/brikko_anonymizer/pipeline.py:318 | `findall` yields exactly the placeholders that occur anywhere in the text |
| Placeholders.SubstituteAppend | anonymizer/brikko_anonymizer/pii/masker.py:380-394 | unmasking distributes over every cut that no replaced placeholder lies across |
| Placeholders.MatchFreeIffNoMatches | anonymizer/brikko_anonymizer/pii/masker.py:358-377 | a scan comes back empty exactly when no placeholder occurs at any position |
| Placeholders.WideIsNarrow | anonymizer/brikko_anonymizer/pipeline.py:410-433 | over a table of narrow placeholders the wide and the narrow expression substitute alike |
| Placeholders.ShortPlaceholder | anonymizer/brikko_anonymizer/pii/masker.py:341-343 | numbers below 10^18 keep a placeholder within 33 characters |
| Neutralise.NeutralisedMatchFree | anonymizer/brikko_anonymizer/pii/masker.py:363-377 | neutralised text holds no placeholder |
| Neutralise.NeutraliseUserPlaceholders | anonymizer/brikko_anonymizer/pii/masker.py:363-377 | length and positions are kept; only `<` may become `＜` |
| Neutralise.NeutralisedAt | anonymizer/brikko_anonymizer/pii/masker.py:363-377 | a character becomes `＜` exactly when a placeholder begins there, and is kept otherwise |
| Neutralise.NeutraliseIdentityIff | anonymizer/brikko_anonymizer/pii/masker.py:363-377 | a text is left alone exactly when it holds no placeholder |
| Neutralise.NeutraliseIdempotent | anonymizer/brikko_anonymizer/pii/masker.py:372-377 | neutralising twice is neutralising once |
| Streaming.LookupReverse.Get | anonymizer/brikko_anonymizer/api.py:54-75 | returns the row or the default and records exactly the misses |
| Streaming.UnmaskText | anonymizer/brikko_anonymizer/pii/masker.py:380-394 | one pass substitutes every narrow match and records every placeholder without a row |
| Streaming.StreamUnmasker.Feed | anonymizer/brikko_anonymizer/pii/streaming.py:73-110 | emits the unmasked text before the last open `<` of the tail, holds the rest back, never over 32 characters |
| Streaming.StreamUnmasker.Flush | anonymizer/brikko_anonymizer/pii/streaming.py:112-124 | emits the unmasked carry and empties it |
| Streaming.StreamUnmasker.Reset | anonymizer/brikko_anonymizer/pii/streaming.py:126-128 | empties the carry |
| Streaming.CutSafe | anonymizer/brikko_anonymizer/pii/streaming.py:86-108 | no placeholder of up to 33 characters ever lies across what was emitted and what follows |
| Streaming.FeedAllSplits | anonymizer/brikko_anonymizer/pii/streaming.py:73-124 | after any feeds, the output is the unmasked form of all input but the carry |
| Streaming.StreamIsUnmask | anonymizer/brikko_anonymizer/pii/streaming.py:73-124 | for every text and chunking, feeds and flush join to the one-shot unmasked text |
| Streaming.LongPlaceholderLeaks | anonymizer/brikko_anonymizer/pii/streaming.py:48-50 | a longer placeholder cut after 33 characters comes out raw |
| Streaming.StreamAgreesIff | anonymizer/brikko_anonymizer/pii/streaming.py:50 | streaming agrees for all chunkings exactly when no replaced placeholder exceeds 33 characters |
| Checksums.Luhn | anonymizer/brikko_anonymizer/pii/checksums.py:140-158 | the loop accepts 13 to 19 digits whose sum, every second from the right doubled, is a multiple of 10 |
| ChecksumFormulas.LuhnRule | anonymizer/brikko_anonymizer/pii/checksums.py:140-158 | accepted exactly when there are 13 to 19 digits and, taken by pairs from the right, each last digit as it is and the one before it doubled less 9 when over 9 add up to a multiple of 10 |
| ChecksumFormulas.Inn10Rule | anonymizer/brikko_anonymizer/pii/checksums.py:44-54 | accepted exactly when there are ten digits and the last is the sum of the others with their weights written out, modulo 11 and 10 |
| ChecksumFormulas.Inn12Rule | anonymizer/brikko_anonymizer/pii/checksums.py:57-71 | accepted exactly when there are twelve digits and both control sums, written out, agree |
| ChecksumFormulas.SnilsRule | anonymizer/brikko_anonymizer/pii/checksums.py:77-109 | accepted exactly when there are eleven digits and the last two are 00 up to 001-001-998 and above it the sum weighted 9 to 1, modulo 101 and 100 |
| ChecksumFormulas.OgrnRule | anonymizer/brikko_anonymizer/pii/checksums.py:115-134 | 13 digits, the last the others as a number modulo 11 and 10; 15 digits, modulo 13 and 10 |
| ChecksumErrors.SeparatorsNeverMatter | anonymizer/brikko_anonymizer/pii/checksums.py:31-33 | inserting non-digits anywhere changes no validator's verdict |
| ChecksumErrors.Inn10OneDigit | anonymizer/brikko_anonymizer/pii/checksums.py:44-54 | a changed digit goes unnoticed exactly for non-check digits with residues 0 and 10 modulo 11 |
| ChecksumErrors.Inn12OneDigit | anonymizer/brikko_anonymizer/pii/checksums.py:57-71 | unnoticed exactly when both sums collide on residues 0 and 10 |
| ChecksumErrors.OgrnOneDigit | anonymizer/brikko_anonymizer/pii/checksums.py:115-123 | unnoticed exactly on residues 0 and 10 modulo 11 of the 12-digit numbers |
| ChecksumErrors.OgrnipOneDigit | anonymizer/brikko_anonymizer/pii/checksums.py:126-134 | unnoticed exactly on residues 0 and 10, 1 and 11, or 2 and 12 modulo 13 |
| ChecksumErrors.SnilsFormula | anonymizer/brikko_anonymizer/pii/checksums.py:101-109 | the case split is (sum mod 101) mod 100 |
| ChecksumErrors.SnilsOneDigit | anonymizer/brikko_anonymizer/pii/checksums.py:77-109 | above 001-001-998 unnoticed exactly on residues 0 and 100 modulo 101 |
| ChecksumErrors.EarlySnilsUnprotected | anonymizer/brikko_anonymizer/pii/checksums.py:97-99 | between early numbers every change outside the two control digits is unnoticed |
| ChecksumErrors.SnilsAcrossBoundary | anonymizer/brikko_anonymizer/pii/checksums.py:97-109 | a change from an early to a later number is unnoticed exactly when the later sum is 0 or 100 modulo 101 |
| ChecksumErrors.SnilsAcrossBoundaryDown | anonymizer/brikko_anonymizer/pii/checksums.py:97-109 | and so is a change from a later to an early number |
| ChecksumSwaps.WeightedSumSwap | anonymizer/brikko_anonymizer/pii/checksums.py:39-41 | a swap changes a weighted sum by the difference of the weights times that of the digits |
| ChecksumSwaps.Inn10Swap | anonymizer/brikko_anonymizer/pii/checksums.py:44-54 | a swap before the check digit is unnoticed exactly on residues 0 and 10 modulo 11 |
| ChecksumSwaps.Inn12Swap | anonymizer/brikko_anonymizer/pii/checksums.py:57-71 | unnoticed exactly when both sums collide on residues 0 and 10 |
| ChecksumSwaps.SnilsSwap | anonymizer/brikko_anonymizer/pii/checksums.py:77-109 | unnoticed exactly between early numbers, or on residues 0 and 100 modulo 101 of the later ones |
| ChecksumSwaps.OgrnSwap | anonymizer/brikko_anonymizer/pii/checksums.py:115-123 | unnoticed exactly on residues 0 and 10 modulo 11 |
| ChecksumSwaps.OgrnipSwap | anonymizer/brikko_anonymizer/pii/checksums.py:126-134 | unnoticed exactly on residues 0 and 10, 1 and 11, or 2 and 12 modulo 13 |
| ChecksumErrors.LuhnDetectsChange | anonymizer/brikko_anonymizer/pii/checksums.py:140-158 | every single-digit change is rejected, at any length |
| ChecksumErrors.LuhnDetectsSwap | anonymizer/brikko_anonymizer/pii/checksums.py:140-158 | a swap of adjacent unequal digits is accepted exactly when they are 0 and 9 |
| ChecksumErrors.LuhnCheckDigitUnique | anonymizer/brikko_anonymizer/pii/checksums.py:140-158 | each payload has exactly one check digit |
| Detection.RegexPass | anonymizer/brikko_anonymizer/pii/masker.py:240-257 | the loops over patterns and matches keep exactly the greedy selection |
| Detection.CollectDetections | anonymizer/brikko_anonymizer/pii/masker.py:217-274 | returns that selection of regex and name spans sorted: from the text, disjoint, increasing |
| SelectionByType.ChosenByType | anonymizer/brikko_anonymizer/pii/masker.py:139-156 | expression by expression in order, each with its type and its check: a span it finds is chosen exactly when the check accepts its text, or checks are off, and no span of an earlier expression meets it |
| SelectionByType.NoAcceptedNumberMissed | anonymizer/brikko_anonymizer/pii/masker.py:240-257 | for each of the ten, an accepted number always meets a chosen span, so none stays in the text uncovered |
| SelectionByType.CollectedByType | anonymizer/brikko_anonymizer/pii/masker.py:217-274 | the masker selects all checked types so, and then every name in order that meets nothing chosen |
| SelectionByType.SelectedInMode | anonymizer/brikko_anonymizer/pipeline.py:135-182 | degraded mode selects with checks, emergency mode without, full mode with checks and names above the profile's confidence |
| SelectionByType.TypesOfProfile | anonymizer/brikko_anonymizer/policy.py:54-85 | strict and balanced keep every type the maskers know, permissive exactly passport, SNILS, INN and card; the three confidences |
| SelectionByType.MaskedIsSelected | anonymizer/brikko_anonymizer/pipeline.py:184-190 | a span is masked exactly when it is selected and its type is allowed |
| SelectionByType.CertainUnlessName | anonymizer/brikko_anonymizer/pipeline.py:145-180 | a masked span has confidence 1 unless it is a name, and names are found in full mode only, as the recogniser gives them |
| Detection.RuleIsGreedy | anonymizer/brikko_anonymizer/pii/masker.py:225-233 | any choice where a span is in exactly when accepted and not overlapped by a chosen earlier one is the selection |
| Detection.RuleUnique | anonymizer/brikko_anonymizer/pii/masker.py:225-233 | at most one choice follows that rule |
| Detection.RuleExists | anonymizer/brikko_anonymizer/pii/masker.py:225-233 | at least one does |
| Detection.GreedyMaximal | anonymizer/brikko_anonymizer/pii/masker.py:243-271 | every accepted span overlaps a chosen one |
| Detection.GreedySelection | anonymizer/brikko_anonymizer/pii/masker.py:273-274 | sorting the selection gives disjoint, increasing spans of the text |
| Detection.CheckedMeetsUnchecked | anonymizer/brikko_anonymizer/pipeline.py:145-157 | every span chosen with checksums overlaps one chosen without |
| Mappings.NextIsFresh | anonymizer/brikko_anonymizer/pii/masker.py:340-347 | in a mapping grown from an empty one the next placeholder is not in use |
| Mappings.IssueAllKeepsGrown | anonymizer/brikko_anonymizer/pii/masker.py:327-352 | whatever is issued, the mapping stays so and no entry is dropped or overwritten |
| Mappings.IndicesContiguous | anonymizer/brikko_anonymizer/pii/masker.py:179-181 | the numbers in use for a type are exactly 1 to its counter |
| Mappings.SamePlaceholderIffSameKey | anonymizer/brikko_anonymizer/pii/masker.py:332-339 | two detections share a placeholder exactly when their cache keys are equal |
| Mappings.FirstSurfaceRecorded | anonymizer/brikko_anonymizer/pii/masker.py:345-347 | a key's placeholder restores to the surface of its first detection |
| Mappings.IssueAllKeepsLiteral | anonymizer/brikko_anonymizer/pii/masker.py:332-347 | with surfaces for keys every key restores to itself |
| Masking.PiiMapping.FromRedisDict | anonymizer/brikko_anonymizer/pii/masker.py:195-199 | the reverse table is kept, each original leads to one of its placeholders, counters are empty |
| Mappings.ReloadedKeepsIff | anonymizer/brikko_anonymizer/pii/masker.py:195-199 | after a reload a further span keeps every entry exactly when its key is an original, its type had no number, or number 1 holds its surface |
| Mappings.ReloadedAllKeepIff | anonymizer/brikko_anonymizer/pii/masker.py:195-199 | after a reload any list of spans keeps every entry exactly when the i-th new key of each type meets number i unused or holding its surface |
| Mappings.ReloadedNameTakesAnothersPlace | anonymizer/brikko_anonymizer/pii/masker.py:195-199 | `Петров`, `Иванову`, reload, `Иванову`: the known name gets and overwrites `<NAME_1>` |
| Splicing.SpliceSurfaces | anonymizer/brikko_anonymizer/pii/masker.py:327-352 | putting each span's own text back gives the text |
| Splicing.ScanSplice | anonymizer/brikko_anonymizer/pii/masker.py:327-394 | a scan of spliced text meets exactly the placeholders put in, in order, and replaces each in place |
| Masking.IssueFor | anonymizer/brikko_anonymizer/pii/masker.py:338-347 | looks the key up or issues the next number, updating all three tables |
| Masking.MaskSpans | anonymizer/brikko_anonymizer/pii/masker.py:327-352 | the replacing loop builds the text with span i replaced by the placeholder of its key |
| Masking.MaskText | anonymizer/brikko_anonymizer/pii/masker.py:293-352 | the whole of `mask_text` on the mapping's contents, the early returns included |
| Masking.UnmaskedIsSubstitute | anonymizer/brikko_anonymizer/pii/masker.py:387-394 | the shortcut for an empty mapping changes nothing |
| RoundTrip.MaskedMatches | anonymizer/brikko_anonymizer/pii/masker.py:293-377 | the narrow matches in masked text are exactly the placeholders inserted, in order |
| RoundTrip.UnmaskMasked | anonymizer/brikko_anonymizer/pii/masker.py:293-394 | unmasking with any later mapping restores at each span what was recorded for its key |
| RoundTrip.LiteralRoundTrip | anonymizer/brikko_anonymizer/pii/masker.py:293-394 | with surface keys the neutralised text comes back exactly |
| RoundTrip.FinalMapping | anonymizer/brikko_anonymizer/pii/masker.py:293-352 | after any texts the mapping is grown and each key restores to its first surface among all of them |
| RoundTrip.MaskAllIsIssueAll | anonymizer/brikko_anonymizer/pii/masker.py:296-298 | masking text after text issues placeholders to one long list of detections |
| RoundTrip.PlaceholdersAcrossTexts | anonymizer/brikko_anonymizer/pii/masker.py:296-309 | across all texts detections share a placeholder exactly when they share a key |
| Messages.MaskContentBlock | anonymizer/brikko_anonymizer/pii/masker.py:400-418 | masks strings, `text` strings and nested `content`, copies all else, threading one mapping |
| Messages.MaskToolCall | anonymizer/brikko_anonymizer/pii/masker.py:456-470 | masks only the string `arguments` of a dict `function` |
| Messages.MaskEachToolCall | anonymizer/brikko_anonymizer/pii/masker.py:448-449 | the comprehension over `tool_calls` in order |
| Messages.MaskOneMessage | anonymizer/brikko_anonymizer/pii/masker.py:443-452 | masks `content` and list `tool_calls` of a message, copies other fields |
| Messages.MaskMessages | anonymizer/brikko_anonymizer/pii/masker.py:421-453 | the whole list through one mapping |
| MessagePaths.MaskedByPosition | anonymizer/brikko_anonymizer/pii/masker.py:400-470 | at every position of the messages the shape is kept; a string is masked, under the mapping reached so far, exactly when the path is a message's `content` followed by indices, `content` and a last `text`, or the `arguments` of a `function` of a tool call; every other is unchanged |
| MessagePaths.ShapeKept | anonymizer/brikko_anonymizer/pii/masker.py:400-470 | every position that is there before masking is there after it and conversely, with the same keys and lengths |
| Messages.MaskIsMaskAll | anonymizer/brikko_anonymizer/pii/masker.py:400-470 | masking a tree is masking its leaves one after another, and drops no entry |
| Messages.UndoesTree | anonymizer/brikko_anonymizer/pii/masker.py:400-470 | what undoes masking leaf by leaf undoes it on the tree |
| Messages.MessagesRoundTrip | anonymizer/brikko_anonymizer/pii/masker.py:293-470 | unmasking each leaf with the final mapping gives the tree with each span's first recorded surface |
| Messages.MessagesRoundTripLiteral | anonymizer/brikko_anonymizer/pii/masker.py:293-470 | with regex-only detection the same tree comes back, each leaf neutralised |
| DegradedMode.DegradedWatcher.constructor | anonymizer/brikko_anonymizer/degraded_mode.py:53-71 | starts in full mode with an empty history |
| DegradedMode.DegradedWatcher.Tick | anonymizer/brikko_anonymizer/degraded_mode.py:86-130 | the sample is the greater of the two loads, and after every history the markers begin the longest suffixes and the mode is that of the specification |
| DegradedMode.SinceSnoc | anonymizer/brikko_anonymizer/degraded_mode.py:97-128 | one sample starts, keeps or clears a marker |
| DegradedMode.ModeSnoc | anonymizer/brikko_anonymizer/degraded_mode.py:105-130 | one sample recovers, fires, or leaves the mode alone; emergency never yields to degraded |
| DegradedMode.OneSample | anonymizer/brikko_anonymizer/degraded_mode.py:33-37 | with no periods to wait for, one sample of 95 or more means emergency, of 80 or more degraded, and below 80 full |
| DegradedMode.ElevatedLoadMode | anonymizer/brikko_anonymizer/degraded_mode.py:97-121 | after a run of elevated samples: emergency if it was before or 95 was held for the emergency period, else degraded if it was before or a sample below 95 came after the degraded period, else full |
| DegradedMode.LowLoadMode | anonymizer/brikko_anonymizer/degraded_mode.py:122-130 | after a run of samples below 80: full exactly when a sample came after the recovery period or it was full before |
| DegradedMode.ElevatedLoadIff | anonymizer/brikko_anonymizer/degraded_mode.py:97-121 | while load is elevated the mode is not full exactly when it was not before, a sample below 95 comes after the degraded period, or 95 is held for the emergency period |
| DegradedMode.SustainedLoadCanStayFull | anonymizer/brikko_anonymizer/degraded_mode.py:7-8 | with the default timers and polling interval, a history above 80 for 30 s that is still full |
| DegradedMode.PromiseKeptIff | anonymizer/brikko_anonymizer/degraded_mode.py:7-8 | sustained load means not full for every history exactly when the emergency period is not positive |
| DegradedMode.SustainedLoadDegrades | anonymizer/brikko_anonymizer/degraded_mode.py:7-8 | the promise holds whenever the last sample is below 95 |
| DegradedMode.CriticalLoadStaysFull | anonymizer/brikko_anonymizer/degraded_mode.py:97-106 | load held at 95 or above is in full mode exactly as long as the emergency period has not passed, whatever the degraded period |
| PolicyMasking.SelectSpans | anonymizer/brikko_anonymizer/pipeline.py:135-182 | regex pass with or without checksums, names in full mode above the threshold, sorted |
| PolicyMasking.NextPlaceholder | anonymizer/brikko_anonymizer/pipeline.py:203-209 | `forward` and `counters` move as the masker's mapping does |
| PolicyMasking.ReplaceSpans | anonymizer/brikko_anonymizer/pipeline.py:193-219 | builds the masked text and one info entry per new key |
| PolicyMasking.MaskWithPolicy | anonymizer/brikko_anonymizer/pipeline.py:116-219 | the whole adapter: neutralise, select, filter by policy, replace |
| PolicyRoundTrip.OriginalsAreReverse | anonymizer/brikko_anonymizer/pipeline.py:204-214 | the info map holds the reverse table plain masking would build |
| PolicyRoundTrip.InfoDistinct | anonymizer/brikko_anonymizer/pipeline.py:210-214 | no placeholder is reported twice |
| PolicyRoundTrip.InfoEntry | anonymizer/brikko_anonymizer/pipeline.py:203-219 | every entry has the text, type and confidence of one detection, and a placeholder of that type |
| PolicyRoundTrip.EntitiesAreMatches | anonymizer/brikko_anonymizer/pipeline.py:193-287 | the entities are exactly the distinct narrow placeholders of the masked text |
| PolicyRoundTrip.FullModeIsMaskText | anonymizer/brikko_anonymizer/pipeline.py:116-219 | in full mode under strict or balanced: same text and originals as `mask_text` on an empty mapping |
| PolicyRoundTrip.EmergencyMeetsDegraded | anonymizer/brikko_anonymizer/pipeline.py:135-157 | before the filter every span of degraded mode overlaps one of emergency mode |
| EmergencyMode.SelectionKeptIff | anonymizer/brikko_anonymizer/pipeline.py:145-157 | without checks every chosen span keeps its place exactly when none of them meets a refused span of earlier priority that is then chosen |
| EmergencyMode.EmergencyKeepsIff | anonymizer/brikko_anonymizer/pipeline.py:135-157 | the same for degraded and emergency mode on any text |
| EmergencyMode.EmergencyCanUncover | anonymizer/docs/DEGRADED_MODE.md:61-66 | `1112-2222-3333-8999 123-45-67` is masked to `1112-2222-3333-<PHONE_1>` in degraded and to `<CARD_1> 123-45-67` in emergency mode |
| Disclosure.SamePlaceholders | anonymizer/brikko_anonymizer/pii/masker.py:327-352 | spans with the same pattern of keys and types get the same placeholders, whatever their surfaces |
| Disclosure.PatternFromPlaceholders | anonymizer/brikko_anonymizer/pii/masker.py:327-352 | the placeholders determine that pattern |
| Disclosure.GapsFromText | anonymizer/brikko_anonymizer/pii/masker.py:327-352 | a masked text determines the text around its placeholders |
| Disclosure.MaskedSameIff | anonymizer/brikko_anonymizer/pipeline.py:116-219 | two calls return the same masked text exactly when their neutralised inputs agree around the spans and the spans have the same pattern |
| PolicyRoundTrip.ShortPlaceholders | anonymizer/brikko_anonymizer/pipeline.py:197-214 | texts under 10^18 characters get placeholders of at most 33 characters |
| PolicyRoundTrip.RestoresMasked | anonymizer/brikko_anonymizer/pipeline.py:309-337 | any table still holding this call's originals restores its masked text |
| PolicyRoundTrip.SameSurfacesRestoreAll | anonymizer/brikko_anonymizer/pipeline.py:203-214 | if each key has one surface the neutralised input comes back |
| PolicyRoundTrip.RegexModesOneSurface | anonymizer/brikko_anonymizer/pipeline.py:135-160 | in degraded and emergency mode every key has one surface |
| PolicyRoundTrip.RegexModesRestoreAll | anonymizer/brikko_anonymizer/pipeline.py:135-160 | so there the neutralised input always comes back |
| NameRoundTrip.RestoresAllIff | anonymizer/brikko_anonymizer/pipeline.py:203-214 | unless surfaces of unequal length add up to the same total, the input comes back exactly when each surface is its key's first |
| NameRoundTrip.OneWayLengthsTell | anonymizer/brikko_anonymizer/pipeline.py:203-214 | that covers all texts whose restored forms are none longer, or none shorter, than the originals |
| NameRoundTrip.LengthsCanCancel | anonymizer/brikko_anonymizer/pipeline.py:203-214 | a text with two names whose longer and shorter forms make up for each other comes back all the same |
| NameRoundTrip.RunRestoresAllIff | anonymizer/brikko_anonymizer/pipeline.py:250-337 | the same for what the service restores, in any mode and after harmless steps |
| NameRoundTrip.FullModeRoundTripCanFail | anonymizer/tests/test_property_roundtrip.py:67-90 | balanced, full mode, any table: `Иванов сказал Иванову` is masked to `<NAME_1> сказал <NAME_1>` and restored to `Иванов сказал Иванов` |
| Store.MappingStore.Put | anonymizer/brikko_anonymizer/mapping_store.py:97-120 | the placeholder's row is replaced, every other kept |
| Store.MappingStore.Get | anonymizer/brikko_anonymizer/mapping_store.py:122-141 | no row, unreadable when the row was written under another key, else the original |
| Store.MappingStore.Stats | anonymizer/brikko_anonymizer/mapping_store.py:143-153 | for every category the number of its rows, none for one that does not occur; they sum to the total |
| Store.MappingStore.Purge | anonymizer/brikko_anonymizer/mapping_store.py:155-183 | an invalid scope changes nothing; otherwise a row stays exactly when the scope is not `all`, nor `session` with its session, nor `subject` with its subject, and the drop in the total is returned |
| Store.PurgedRows | anonymizer/brikko_anonymizer/mapping_store.py:167-180 | the same of every table, row by row |
| Store.StatsSumToTotal | anonymizer/brikko_anonymizer/mapping_store.py:143-153 | for every table the category counts sum to the total |
| Runs.ReachableTable | anonymizer/brikko_anonymizer/pipeline.py:266-280 | after every run each row's category is the type of its placeholder and its subject the hash of its original, and over texts under 10^18 characters keys are narrow and at most 33 long |
| Runs.BatchIsDirect | anonymizer/brikko_anonymizer/pipeline.py:309-337 | collecting wide matches and unmasking narrow ones is direct substitution of the readable rows |
| Runs.ThreePathsAgree | anonymizer/brikko_anonymizer/api.py:318-374 | batch, tool and stream restoration give the same text for every input and chunking |
| Runs.ThreePathsAgreeOnRuns | anonymizer/brikko_anonymizer/pipeline.py:410-433 | so they do after every run over texts under 10^18 characters |
| Runs.StepOnRow | anonymizer/brikko_anonymizer/pipeline.py:250-305 | a step writes a row, erases it, or leaves it as it was |
| Runs.LastWriterWins | anonymizer/brikko_anonymizer/mapping_store.py:97-183 | a row is there exactly when some step wrote it and nothing later overwrote or erased it |
| Runs.HarmlessRunKeeps | anonymizer/brikko_anonymizer/mapping_store.py:167-180 | restores, tool calls, other workspaces, other placeholders and purges of other sessions or subjects keep a call's rows |
| Runs.RestoreAfterAnonymize | anonymizer/brikko_anonymizer/pipeline.py:250-337 | from any table, after anonymize and harmless steps, the masked text restores to the recorded surfaces |
| Runs.RoundTripIff | anonymizer/brikko_anonymizer/pipeline.py:250-337 | in any mode, when every key has one surface, it restores to the neutralised input, so to the input exactly when that held no placeholder |
| Runs.RegexModesRoundTripIff | anonymizer/brikko_anonymizer/pipeline.py:250-337 | in degraded and emergency mode that is so for every text |
| Runs.PurgedSubjectStaysGone | anonymizer/brikko_anonymizer/mapping_store.py:175-180 | after a subject's purge nothing restores to a value with that hash until one is anonymized again |
| Runs.PurgedSessionStaysGone | anonymizer/brikko_anonymizer/mapping_store.py:167-174 | after a session's purge no row belongs to it until something is anonymized in it again |
| Runs.OtherKeyRestoresNothing | anonymizer/brikko_anonymizer/mapping_store.py:122-141 | under a key that wrote no row all three paths return the text as it is |
| Pipelines.Pipeline.constructor | anonymizer/brikko_anonymizer/pipeline.py:230-237 | no store is open and every workspace is as on disk |
| Pipelines.Pipeline.StoreFor | anonymizer/brikko_anonymizer/pipeline.py:241-246 | opens a store once, without changing what any workspace holds |
| Pipelines.Pipeline.Anonymize | anonymizer/brikko_anonymizer/pipeline.py:250-305 | every workspace takes the step of `Runs`; masked text, entities and mode flag; unknown profile changes nothing |
| Pipelines.EntitiesMean | anonymizer/brikko_anonymizer/pipeline.py:203-219 | an entity's placeholder occurs in the masked text and is of the entity's category; its confidence is 1, or that of a recognised name in full mode |
| Pipelines.Pipeline.Restore | anonymizer/brikko_anonymizer/pipeline.py:309-358 | the restored text and, without repeats, exactly the wide matches without a readable row; nothing changes |
| Pipelines.Pipeline.DeanonymizeToolArgs | anonymizer/brikko_anonymizer/pipeline.py:362-408 | by the override if not empty, else the tool's mode: denies, forwards, or restores exactly the listed string arguments and names those changed |
| Pipelines.ToolModes | anonymizer/brikko_anonymizer/pipeline.py:362-383 | the registered policy before the default, a non-empty override before its mode: `forbid` denies, `forward_masked` forwards, all else restores |
| Pipelines.ToolArguments | anonymizer/brikko_anonymizer/pipeline.py:384-393 | a string under a listed key, or any string when none is listed, comes back with every readable wide match replaced; every other argument is unchanged |
| Pipelines.ToolKeys | anonymizer/brikko_anonymizer/pipeline.py:384-393 | a key is reported exactly when such an argument under it holds a readable wide match |
| Pipelines.NeverRestoresIff | anonymizer/brikko_anonymizer/pipeline.py:371-393 | nothing is ever restored exactly under the modes `forbid` and `forward_masked`; any other string restores |
| Pipelines.Pipeline.Purge | anonymizer/brikko_anonymizer/api.py:499-519 | by the same row-by-row rule, in that workspace alone |
| Pipelines.PutEntries | anonymizer/brikko_anonymizer/pipeline.py:266-287 | one put per info entry, with the hash of its original |
| Pipelines.LookUpAll | anonymizer/brikko_anonymizer/pipeline.py:320-335 | in whatever order the set is visited, splits it into found and missing |
| Pipelines.SubstituteArgs | anonymizer/brikko_anonymizer/pipeline.py:384-393 | restores the selected arguments in order and collects the keys that changed |
| Pipelines.SubstitutePlaceholders | anonymizer/brikko_anonymizer/pipeline.py:410-433 | substitutes every readable wide match; changed exactly when there was one |
| RestoreStreams.RestoreStream | anonymizer/brikko_anonymizer/api.py:329-386 | non-empty chunk events, then exactly one end or error event unless the generator dies on a non-string text |
| RestoreStreams.BodyMeans | anonymizer/brikko_anonymizer/api.py:329-386 | the lines are read up to the first that is not a chunk with a text: an end line ends well, a text that is no string crashes, anything else is a protocol error |
| RestoreStreams.StreamResponse | anonymizer/brikko_anonymizer/api.py:329-386 | after an end the chunks join to the unmasked input and the missing placeholders up to 33 characters are listed exactly; after an error they join to a prefix |
| RestoreStreams.FeedMissesAre | anonymizer/brikko_anonymizer/api.py:67-75 | what a stream records as missing is missing from the whole text, and up to 33 characters conversely |
| RestoreStreams.StreamOnRuns | anonymizer/brikko_anonymizer/api.py:318-374 | after every run over texts under 10^18 characters the stream of a workspace joins to what `restore` gives |
| RestoreStreams.ReportsAgreeIff | anonymizer/brikko_anonymizer/pipeline.py:318-331 | stream and `restore` report the same for every chunking exactly when all that `restore` reports are narrow and at most 33 long |
| ParenScan.BeginQuotedSection | packages/core/scripts/check-temp-path-guardrails.ts:46-52 | opens a quote exactly on a quote character |
| ParenScan.ConsumeQuotedChar | packages/core/scripts/check-temp-path-guardrails.ts:54-70 | consumes exactly inside quotes, handling escapes and the closing quote |
| ParenScan.FindMatchingParen | packages/core/scripts/check-temp-path-guardrails.ts:72-95 | the least index where the depth outside string literals closes the parenthesis, or -1 exactly when there is none |
| ParenGrammar.LiteralNeutral | packages/core/scripts/check-temp-path-guardrails.ts:46-70 | from outside quotes, a string literal with any escapes in it is inside quotes at every position before its closing quote, outside after it, and changes no depth |
| ParenGrammar.MatchingParenFound | packages/core/scripts/check-temp-path-guardrails.ts:72-95 | of a group of balanced code, whatever its literals and inner groups hold and whatever surrounds it, the scanner finds the parenthesis that was written to close it |
| ParenGrammar.NoMatchingParen | packages/core/scripts/check-temp-path-guardrails.ts:72-95 | and -1 when it was left open |
| ParenScan.SliceIsBalanced | packages/core/scripts/check-temp-path-guardrails.ts:191-194 | on the slice so found the paren depth never falls below zero and ends at zero outside quotes |
| ParenScan.ClampNeverHit | packages/core/scripts/check-temp-path-guardrails.ts:120-126 | there the clamped depth is the true depth at every position |
| ParenScan.SplitTopLevelArguments | packages/core/scripts/check-temp-path-guardrails.ts:97-162 | the trimmed pieces between the top-level commas, without a blank last one |
| ParenScan.SplitLosesNothing | packages/core/scripts/check-temp-path-guardrails.ts:97-162 | every cut is a top-level comma and conversely, and pieces and commas join to the source |
| ParenGrammar.CutsAreJoins | packages/core/scripts/check-temp-path-guardrails.ts:97-150 | arguments written with commas in between are cut at just those commas |
| ParenGrammar.ArgumentsFound | packages/core/scripts/check-temp-path-guardrails.ts:97-162 | so the splitter gives back what was written, trimmed, without a blank last one |
| Text.TrimOnlySpaces | packages/core/scripts/check-temp-path-guardrails.ts:152-159 | trimming removes white space at the ends and nothing else |
| Batches.BuildTranslationBatches | packages/core/scripts/control-ui-i18n.ts:993-1017 | batches join to the items in order, each fits, and none could take its successor's first item |
| Batches.RunningIsEstimate | packages/core/scripts/control-ui-i18n.ts:833-835 | the running count of a batch is its estimate and 2 per item |
| Batches.ClosedEarlyIff | packages/core/scripts/control-ui-i18n.ts:999-1010 | a batch closes although the next item would fit exactly when the estimate misses the budget by less than that |
| Batches.TwoBatchesForOne | packages/core/scripts/control-ui-i18n.ts:97 | under the default budget two items estimated at 1998 become two batches |
| Batches.BatchesWithinBudget | packages/core/scripts/control-ui-i18n.ts:999-1010 | each batch has 1 to 20 items and is within budget by its estimate unless it is a single item |
| Batches.BatchesFull | packages/core/scripts/control-ui-i18n.ts:999-1010 | a batch with a successor has 20 items, or one more item would take its estimate and 2 per item over the budget |
| Batches.BatchingUnique | packages/core/scripts/control-ui-i18n.ts:993-1017 | no other batching has those properties |
| Batches.TranslateBatch | packages/core/scripts/control-ui-i18n.ts:1259-1321 | retries, timeout splits and their prompts as the recursive function says, under any replies |
| Batches.PromptByPrompt | packages/core/scripts/control-ui-i18n.ts:1259-1321 | a complete reply ends the batch; a timeout splits it into halves, or ends it when it is one item; any other failure is tried once more and then ends it |
| Batches.ReadReply | packages/core/scripts/control-ui-i18n.ts:1276-1284 | reads a reply in full or stops at the first unusable key |
| Batches.ReadAllIff | packages/core/scripts/control-ui-i18n.ts:1278-1286 | a reply succeeds exactly when every key has a non-blank string, and then yields exactly those |
| Batches.ReadingMeans | packages/core/scripts/control-ui-i18n.ts:1276-1309 | a reply that lacks a key counts as a timeout exactly when the name of the first such key says so |
| Batches.TranslatedPromises | packages/core/scripts/control-ui-i18n.ts:1259-1321 | at most 4n-2 prompts, and on success exactly the items' keys, each answered by one of those prompts |
| Batches.BoundIsTight | packages/core/scripts/control-ui-i18n.ts:1267-1309 | for every n some replies cost exactly 4n-2 prompts |
| Translations.FlattenTranslations | packages/core/scripts/control-ui-i18n.ts:324-334 | adds exactly the leaves below the prefix, in whatever order the keys come |
| Translations.Flatten | packages/core/scripts/control-ui-i18n.ts:324-334 | every key comes from a leaf with its text and every leaf has its key |
| Translations.SplitDotted | packages/core/scripts/control-ui-i18n.ts:337 | splitting undoes joining for dot-free parts |
| Translations.DotsSeparate | packages/core/scripts/control-ui-i18n.ts:324-337 | it is the dot that joins and splits |
| Translations.SetPathLeaves | packages/core/scripts/control-ui-i18n.ts:336-351 | setting a path adds one leaf and keeps every other not below it |
| Translations.SetPathLeavesAll | packages/core/scripts/control-ui-i18n.ts:336-351 | and whatever is there, exactly the leaves on the way to the path or below it are lost |
| Translations.SameLeavesSameTree | packages/core/scripts/control-ui-i18n.ts:324-334 | trees without empty maps are determined by their leaves |
| Translations.RebuildGivesTree | packages/core/scripts/control-ui-i18n.ts:1482-1485 | rebuilding in any order gives the tree back and never overwrites a string |
| Translations.RebuildIsClean | packages/core/scripts/control-ui-i18n.ts:1482-1485 | whatever is built has dot-free keys and no empty maps |
| Translations.RebuildIff | packages/core/scripts/control-ui-i18n.ts:324-351 | a tree survives flattening and rebuilding exactly when its keys are dot-free, it has no empty sub-map, and none under an empty top key |
| NestedMaps.MapObject.SetNestedValue | packages/core/scripts/control-ui-i18n.ts:336-351 | on mutable objects in place: the new tree is the old one with that path set, fresh maps replacing strings |
| NestedMaps.BuildMap | packages/core/scripts/control-ui-i18n.ts:1482-1485 | the object built stands for the rebuilt tree |

## Left out

- NestedMaps.MapObject.SetNestedValue: walks by recursion where the source moves a cursor in a loop, and takes the key already split; the objects are updated in place as in the source.
- NestedMaps.BuildMap: takes the entries' values, since the choice between a translation and the source text is made before.
- NameRoundTrip.RestoresAllIff: assumes that surfaces of unequal length do not add up to the same total; without it one direction holds and the other does not (`LengthsCanCancel`).
- Batches.TranslateBatch: labels, logging, delays and resetting the client are left out; a reply is a parsed object or a failure that timed out or not.
- RestoreStreams.RestoreStream: looks every placeholder up in the rows as they are when the stream begins, where the source looks up lazily between chunks, so that another call may change the table mid-stream; lines come already parsed, and hallucinated placeholders are a set where the source sorts them.
- ParenScan.SplitTopLevelArguments: JavaScript strings are sequences of characters, not UTF-16 units.
- ChecksumSwaps: swaps that involve a check digit.
- Detector expressions and the Natasha recogniser: any functions that return non-empty spans inside the text, those of an expression from left to right without overlap, as `finditer` gives them.
- Encryption, key files and key rotation: a row records the key it was written under, and a step may reopen a workspace under another key.
- SHA-256 of subjects: an uninterpreted function.
- Loads, times, confidences and budgets: real numbers where the source has floats.
- Lone surrogates in texts: `char` has none.
- Keys that name members of `Object.prototype`, and the key order of objects, in the translation script: not modelled.
- Threads, locks and polling: a tick and a service call, a whole stream included, are atomic steps.
- Audit log, HTTP status codes, latency, JSON parsing, schemas: external or easy.
- `pii/integration.py` and `pii/store.py`: plumbing around `feed`, `unmask_text` and Redis.
- `hasDynamicTmpdirJoin` around the scanner, and the RPC client, files and copy checks of the translation script: no hard property of their own.
