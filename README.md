# Runs, training-population preparation and the fermata-dot pattern

This project models three pieces of an optical music recognition engine in Dafny and proves properties about them.

- **Runs** (`runs.dfy`). A run is a horizontal or vertical sequence of pixels:
  - a start coordinate, a length and an average grey level;
  - optionally, the section that contains it.
  
  The model covers:
  - its stop coordinate;
  - its overlap length with another run;
  - translation along its axis;
  - the identity test on start/length/level;
  - the section link;
  - its textual form `{Run start/length@level}`.
  
  Java `int` arithmetic is modelled exactly as 32-bit two's-complement wrap-around, in `java_int.dfy`. Decimal rendering of integers is in `decimal.dfy`. The textual form has an inverse parser, and a round trip is proved through it.
- **Training preparation and panel state** (`training.dfy`, using the generic keep/drop filter in `sifting.dfy`).
  - The train action resolves the selected sample names to glyphs. It drops a name whose glyph is missing or has no shape, with one warning each.
  - It then checks the population. A glyph whose physical shape cannot be determined, is not trainable, or falls past `LAST_PHYSICAL_SHAPE` is removed, with one warning each. After that, every physical ordinal that no survivor covers is reported.
  - The panel also holds two flags:
    - which base is used, core or whole, set by the core and whole actions;
    - whether the train action is enabled, which follows the task's activity.
- **Fermata-dot pattern** (`fermata_dot.dfy`).
  - For each fermata glyph (`FERMATA` or `FERMATA_BELOW`) of a system, the candidates are the other glyphs whose box meets the fermata's box and whose shape is one of the three dot shapes.
  - For each candidate in turn, a compound of fermata and candidate is built and given to the classifier. The first compound the classifier accepts is registered in the system with the classifier's evaluation, and the search for that fermata stops.
  - The pass returns the number of compounds committed.

The system's registry is a class, `SystemInfo`, whose methods append a glyph and set an evaluation. The pattern's loops are proved against the value-level functions `Step` and `Pass`, and the properties are proved about those functions.

Design decisions that follow the code:

- **Missing-shape warnings.** The comments of `checkPopulation` and `train` say that all trainable shapes are checked for presence (TrainingPanel.java:285-286, 420-421). The code actually warns for every ordinal from 0 to `LAST_PHYSICAL_SHAPE`, trainable or not (TrainingPanel.java:289-315). The model follows the code. `Training.NonTrainableAlwaysMissing` proves the consequence: an ordinal none of whose shapes is trainable is always reported missing.
- **One catch block.** `catch (Exception)` in `checkPopulation` catches three failures, and the model drops the glyph as `WeirdShape` for each:
  - a null shape;
  - a shape whose physical shape cannot be determined;
  - the array store for a trainable physical shape whose ordinal lies past `LAST_PHYSICAL_SHAPE`.
- **No validation in `Run`.** Negative lengths are not rejected, and no operation guards against overflow. Stop, common length and translation wrap like Java `int`. The order-sensitive lemmas about the common length state the absence of overflow as a precondition.

## Model

| member | source | states |
|---|---|---|
| JavaInt.Wrap | src/main/org/audiveris/omr/run/Run.java:156-159 | the 32-bit result is congruent to the exact value modulo 2^32 and equals it when the exact value fits in an `int` |
| JavaInt.WrapOfWrap | src/main/org/audiveris/omr/run/Run.java:156-159 | wrapping an intermediate result and then adding gives the same `int` as adding exactly and wrapping once |
| Runs.Run.constructor | src/main/org/audiveris/omr/run/Run.java:70-77 | a new run has the given start, length and level and no section |
| Runs.Run.Default | src/main/org/audiveris/omr/run/Run.java:83-86 | the unmarshalling constructor gives start 0, length 0, level 0, no section, so its stop is -1 |
| Runs.StopOf | src/main/org/audiveris/omr/run/Run.java:156-159 | the stop is start+length-1 in 32-bit arithmetic; it is the exact last pixel when no overflow occurs |
| Runs.CommonLengthOf | src/main/org/audiveris/omr/run/Run.java:99-105 | the common length is congruent modulo 2^32 to min(stops) - max(starts) + 1, and equal to it when that value fits in an `int` |
| Runs.Run.Stop | src/main/org/audiveris/omr/run/Run.java:156-159 | the run's stop is `StopOf` its start and length, whose contract gives `(start + length) - 1` in `int` arithmetic |
| Runs.Run.CommonLength | src/main/org/audiveris/omr/run/Run.java:99-105 | the common length of two runs is `CommonLengthOf` their starts and lengths; `CommonLengthSymmetric`, `CommonLengthWithSelf`, `CommonLengthAtMost` and `CommonLengthPositiveIffOverlap` state its properties |
| Runs.CommonLengthSymmetric | src/main/org/audiveris/omr/run/Run.java:99-105 | the common length of a with b equals that of b with a |
| Runs.CommonLengthWithSelf | src/main/org/audiveris/omr/run/Run.java:99-105 | every run shares its whole length with itself, even when its stop overflows |
| Runs.CommonLengthAtMost | src/main/org/audiveris/omr/run/Run.java:99-105 | without overflow, the common length is at most each run's length |
| Runs.CommonLengthPositiveIffOverlap | src/main/org/audiveris/omr/run/Run.java:99-105 | for non-empty runs without overflow, the common length is positive exactly when the pixel ranges share a pixel |
| Runs.TranslatePreservesCommonLength | src/main/org/audiveris/omr/run/Run.java:169-172 | translating both runs by the same amount, without overflow, leaves their common length unchanged |
| Runs.Run.Translate | src/main/org/audiveris/omr/run/Run.java:169-172 | the start becomes old start + dc in 32-bit arithmetic; without overflow start and stop both move by exactly dc; length, level and section are unchanged |
| Runs.Run.SetSection | src/main/org/audiveris/omr/run/Run.java:210-213 | the section becomes the given one and the start is unchanged |
| Runs.Run.IsIdentical | src/main/org/audiveris/omr/run/Run.java:196-200 | true exactly when start, length and level agree, the section aside; `IsIdenticalEquivalence` and `ToStringIffIdentical` state its properties |
| Runs.RunText | src/main/org/audiveris/omr/run/Run.java:224-237 | `{Run ` then start, `/`, length, `@`, level in Java's decimal form, then `}`; `RunTextRoundTrip` proves it can be read back |
| Runs.Run.ToString | src/main/org/audiveris/omr/run/Run.java:224-237 | the run's text is `RunText` of its start, length and level; `ToStringIffIdentical` relates it to identity |
| Runs.IsIdenticalEquivalence | src/main/org/audiveris/omr/run/Run.java:196-200 | identity on start/length/level is reflexive, symmetric and transitive |
| Runs.RunTextRoundTrip | src/main/org/audiveris/omr/run/Run.java:224-237 | parsing the text `{Run start/length@level}` gives back start, length and level |
| Runs.ToStringIffIdentical | src/main/org/audiveris/omr/run/Run.java:224-237 | two runs have the same text exactly when they are identical |
| Decimal.ParseIntToString | src/main/org/audiveris/omr/run/Run.java:229-233 | the decimal text of an `int` appended by the string builder parses back to that `int` |
| Decimal.NatDigits | src/main/org/audiveris/omr/run/Run.java:229-233 | the decimal digits of a natural number are non-empty and all digits, with no leading zero |
| Sifting.SiftAccounting | src/main/org/audiveris/omr/glyph/ui/panel/TrainingPanel.java:404-418 | the kept values and the warnings together number exactly the elements of the input |
| Sifting.KeptAtSpec | src/main/org/audiveris/omr/glyph/ui/panel/TrainingPanel.java:292-309 | the kept elements come from increasing positions of the input, and a position is kept exactly when its verdict is Keep |
| Sifting.DroppedAtSpec | src/main/org/audiveris/omr/glyph/ui/panel/TrainingPanel.java:292-309 | the warnings come from increasing positions of the input, one per position whose verdict is Drop, in input order |
| Sifting.KeptIsSubsequence | src/main/org/audiveris/omr/glyph/ui/panel/TrainingPanel.java:292-309 | a filter that keeps elements unchanged returns a subsequence of its input |
| Sifting.KeptMembers | src/main/org/audiveris/omr/glyph/ui/panel/TrainingPanel.java:292-309 | a value is kept exactly when some input position yields Keep of that value |
| Training.Resolution | src/main/org/audiveris/omr/glyph/ui/panel/TrainingPanel.java:407-417 | the decision on one name: dropped as "cannot get glyph" when the repository has none, as "cannot infer shape" when the glyph has no shape, kept as its glyph otherwise; `ResolutionExactly` states it for the whole list |
| Training.ResolveSamples | src/main/org/audiveris/omr/glyph/ui/panel/TrainingPanel.java:404-418 | the loop returns the glyphs and warnings of the resolution filter over the selected names |
| Training.ResolutionExactly | src/main/org/audiveris/omr/glyph/ui/panel/TrainingPanel.java:404-418 | a name is kept, in order, exactly when the repository has its glyph and the glyph has a shape; the warnings come exactly from the other names, in order, each leaving "cannot get glyph" or "cannot infer shape", whichever applies |
| Training.CheckPopulation | src/main/org/audiveris/omr/glyph/ui/panel/TrainingPanel.java:283-316 | the survivors are the check filter's kept glyphs; the warnings are the per-glyph removals followed by one missing-shape warning per ordinal up to `LAST_PHYSICAL_SHAPE` that no survivor covers |
| Training.CoversAppend | src/main/org/audiveris/omr/glyph/ui/panel/TrainingPanel.java:299-300 | adding a glyph to the survivors adds exactly its physical ordinal to the covered ordinals |
| Training.Check | src/main/org/audiveris/omr/glyph/ui/panel/TrainingPanel.java:293-308 | the verdict on one glyph: dropped as weird for a missing shape or an unknown physical shape, as non trainable for a known non-trainable physical shape, as weird for a trainable ordinal past `LAST_PHYSICAL_SHAPE`, kept otherwise; `CheckVerdict` states it |
| Training.CheckVerdict | src/main/org/audiveris/omr/glyph/ui/panel/TrainingPanel.java:294-308 | a glyph is kept, unchanged, exactly when its physical shape is known, trainable and in range; otherwise it gets "non trainable" when its physical shape is known but not trainable, and "weird shape" in every other case |
| Training.CheckOnlyRemoves | src/main/org/audiveris/omr/glyph/ui/panel/TrainingPanel.java:283-309 | the check only removes: the survivors are a subsequence of the input, each position survives exactly when its glyph is fit for training, and each removed glyph leaves exactly its reason |
| Training.Missing | src/main/org/audiveris/omr/glyph/ui/panel/TrainingPanel.java:311-315 | one missing-shape warning per ordinal below the bound that no kept glyph covers, ascending; `MissingExactly` states it |
| Training.MissingExactly | src/main/org/audiveris/omr/glyph/ui/panel/TrainingPanel.java:311-315 | the coverage warnings name exactly the uncovered ordinals below the bound, each once, in ascending order |
| Training.NonTrainableAlwaysMissing | src/main/org/audiveris/omr/glyph/ui/panel/TrainingPanel.java:289-315 | an ordinal up to `LAST_PHYSICAL_SHAPE` none of whose shapes is trainable is always reported missing, whatever the population |
| Training.PreparationAccounting | src/main/org/audiveris/omr/glyph/ui/panel/TrainingPanel.java:404-422 | the prepared population is a subsequence of the resolved glyphs, all fit for training, and the population together with the warnings of both steps numbers exactly the selected names |
| Training.TrainingPanel.constructor | src/main/org/audiveris/omr/glyph/ui/panel/TrainingPanel.java:139-162 | after the layout has run the core and then the whole action, the panel uses the whole base, the train action is enabled and nothing is logged |
| Training.TrainingPanel.DefineLayout | src/main/org/audiveris/omr/glyph/ui/panel/TrainingPanel.java:244-278 | initialising with the core then the whole action leaves the whole base selected |
| Training.TrainingPanel.SelectCore | src/main/org/audiveris/omr/glyph/ui/panel/TrainingPanel.java:467-472 | the core action selects the core base only |
| Training.TrainingPanel.SelectWhole | src/main/org/audiveris/omr/glyph/ui/panel/TrainingPanel.java:512-517 | the whole action selects the whole base |
| Training.TrainingPanel.Update | src/main/org/audiveris/omr/glyph/ui/panel/TrainingPanel.java:207-222 | the train action is enabled exactly when the task is inactive |
| Training.TrainingPanel.Train | src/main/org/audiveris/omr/glyph/ui/panel/TrainingPanel.java:396-427 | the population handed to the engine is the resolved-then-checked selection of the current base; the log gains the resolution warnings, then the check warnings; the task ends inactive |
| FermataDot.CandidatesInExactly | src/main/org/audiveris/omr/glyph/pattern/FermataDotPattern.java:106-118 | the lookup holds exactly the registered glyphs satisfying the candidate predicate |
| FermataDot.IsAnchor | src/main/org/audiveris/omr/glyph/pattern/FermataDotPattern.java:91-92 | a glyph is a fermata when its shape is `FERMATA` or `FERMATA_BELOW`; `NonAnchorIgnored` shows every other glyph is skipped |
| FermataDot.CandidatesIn | src/main/org/audiveris/omr/glyph/pattern/FermataDotPattern.java:106-118 | the lookup of the glyphs that pass the candidate predicate; `CandidatesInExactly` states it |
| FermataDot.IsCandidate | src/main/org/audiveris/omr/glyph/pattern/FermataDotPattern.java:111-117 | a glyph is a candidate when it is not the fermata, its box meets the fermata's and its shape is among the dots; `CandidatesAreDots` states it for the lookup |
| FermataDot.CandidatesAreDots | src/main/org/audiveris/omr/glyph/pattern/FermataDotPattern.java:62-65 | a glyph is a candidate of a fermata exactly when it is another registered glyph, its box meets the fermata's box, and its shape is dot set, augmentation dot or staccato |
| FermataDot.FirstAccepted | src/main/org/audiveris/omr/glyph/pattern/FermataDotPattern.java:120-150 | the result is the position of the first candidate whose compound the classifier accepts, or none when every compound is rejected |
| FermataDot.NonAnchorIgnored | src/main/org/audiveris/omr/glyph/pattern/FermataDotPattern.java:90-94 | a glyph other than a fermata changes nothing, counts nothing and consults the classifier on nothing |
| FermataDot.StepCommitsFirstAccepted | src/main/org/audiveris/omr/glyph/pattern/FermataDotPattern.java:120-150 | for a fermata, at most one commit happens, and it happens exactly when some candidate is accepted; the committed compound is the first accepted one, under the registry's next identity and with the classifier's evaluation; no later candidate is consulted; without a commit the registry is unchanged |
| FermataDot.Step | src/main/org/audiveris/omr/glyph/pattern/FermataDotPattern.java:90-151 | one turn of the outer loop, as a value: the registry after it, the number of commits and the compounds given to the classifier; `NonAnchorIgnored`, `StepCommitsFirstAccepted` and `StepGrowth` state its meaning |
| FermataDot.Pass | src/main/org/audiveris/omr/glyph/pattern/FermataDotPattern.java:86-155 | the outer loop over the snapshot, as a value: the steps in order, counts added up; `PassCounts`, `CommittedAsVoted`, `PassKeepsRegistryWellFormed` and `NothingAcceptedNothingCommitted` state its meaning |
| FermataDot.Commit | src/main/org/audiveris/omr/glyph/pattern/FermataDotPattern.java:137-138 | the registry after adding a compound under the next identity and giving it the evaluation; `StepGrowth` and `StepKeepsRegistryWellFormed` state its effect |
| FermataDot.StepGrowth | src/main/org/audiveris/omr/glyph/pattern/FermataDotPattern.java:135-149 | one glyph of the pass adds at most one glyph, at the end, under the next identity and with an evaluation, leaving the earlier glyphs unchanged |
| FermataDot.PassCounts | src/main/org/audiveris/omr/glyph/pattern/FermataDotPattern.java:86-155 | the returned count is at most the number of fermatas and equals the number of glyphs added; earlier glyphs are untouched; added glyphs get consecutive identities from the registry's next identity, and an evaluation |
| FermataDot.CommittedAsVoted | src/main/org/audiveris/omr/glyph/pattern/FermataDotPattern.java:127-138 | every added glyph is a compound given to the classifier, carrying exactly the evaluation the classifier returned for it |
| FermataDot.StepKeepsRegistryWellFormed | src/main/org/audiveris/omr/glyph/pattern/FermataDotPattern.java:137 | one glyph of the pass keeps the registry well formed: every identity below the next one, no identity twice |
| FermataDot.PassKeepsRegistryWellFormed | src/main/org/audiveris/omr/glyph/pattern/FermataDotPattern.java:86-155 | a pass from a well-formed registry leaves it well formed, and every glyph it adds has an identity no glyph registered before the pass has |
| FermataDot.NothingAcceptedNothingCommitted | src/main/org/audiveris/omr/glyph/pattern/FermataDotPattern.java:86-155 | when the classifier accepts nothing, the registry is unchanged and the pass returns 0 |
| FermataDot.SystemInfo.AddGlyph | src/main/org/audiveris/omr/glyph/pattern/FermataDotPattern.java:137 | the compound is appended under the next identity, which then advances |
| FermataDot.SystemInfo.SetEvaluation | src/main/org/audiveris/omr/glyph/pattern/FermataDotPattern.java:138 | only the evaluation of the addressed glyph changes |
| FermataDot.FermataDotPattern.constructor | src/main/org/audiveris/omr/glyph/pattern/FermataDotPattern.java:76-79 | the pattern works on the given system |
| FermataDot.FermataDotPattern.CheckFermata | src/main/org/audiveris/omr/glyph/pattern/FermataDotPattern.java:91-151 | one turn of the outer loop leaves the system, the count and the consulted compounds exactly as `Step` gives them |
| FermataDot.FermataDotPattern.RunPattern | src/main/org/audiveris/omr/glyph/pattern/FermataDotPattern.java:86-155 | the loops leave the system, the returned count and the consulted compounds exactly as `Pass` gives them from the initial system, and keep a well-formed registry well formed |

## Left out

- Swing is not modelled: the panel component, layout builder, radio buttons, progress bar, confirmation dialog, and the `SwingWorker`s that display the base sizes. None of this affects the modelled state.
- The train action's worker thread is not modelled. `Train` runs synchronously, and concurrent access to the panel is not modelled.
- The observer mechanism is not modelled: `Update` is called directly rather than by a task notification.
- The evaluation engine's `train`, `dump` and starting mode are foreign calls and not part of this model. The model returns the population the engine would receive.
- Logging is modelled as a warning sequence: one value per warning, without message text or exception details. VIP and debug output is left out.
- The glyph repository, the selection panel and the shape enumeration are abstract parameters. They cover `getGlyph`, `getBase`, `getPhysicalShape`, `isTrainable`, the ordinals and `LAST_PHYSICAL_SHAPE`, none of which is part of this model. For the same reason, the model does not prove that the core base is no bigger than the whole base.
- `Run.getLength`, `getLevel`, `getStart` and `getSection` are field reads, modelled as the fields themselves. The XML annotations are not modelled.
- Runs.CommonLengthAtMost: requires that neither stop overflows and that the exact common length fits in an `int`. With wrap-around the bound can fail.
- Runs.CommonLengthPositiveIffOverlap: requires non-empty runs and no overflow, for the same reason.
- Runs.TranslatePreservesCommonLength: requires that the translated stops and common lengths do not overflow.
- `FermataDot.Intersects` follows `java.awt.Rectangle.intersects` for boxes of positive size without overflow. The special cases of that method for coordinates near the integer limits are not modelled.
- `FermataDot.FermataDotPattern.RunPattern`: a glyph's shape is taken to be the shape of its evaluation.
  - Compound building, the neural-network vote and the order of the candidate set are oracles.
  - `buildTransientCompound` and `vote` receive the system (FermataDotPattern.java:127-133), whose glyphs grow during the pass. The model takes both to be independent of the system's glyphs: `Oracles.build` and `Oracles.vote` see only the fermata, the candidate and the compound.
  - Glyph identity (`!=` on references) is modelled as inequality of identifiers. The two agree on a registry whose identities are distinct (`FermataDot.WellFormed`), and the pass keeps that property.
  - Grades are `real`.
  - `addGlyph` is modelled as always registering a new glyph, so a possible merge with an equal existing glyph is not modelled.
- `FermataDot.FermataDotPattern.RunPattern`: the outer loop runs over a snapshot of the system's glyph list taken at the start. Compounds committed during the pass are therefore not visited as fermatas, though they are seen as candidates. Whether the live Java collection would fail or show them is not modelled.
- `Training.CheckPopulation` returns the filtered list instead of removing elements through the list's iterator, so aliasing of the caller's list is not modelled.
- The first resolution warning ("cannot get glyph") is modelled as the repository returning no glyph. Exceptions inside the repository are not modelled.
- The context classes `GridBuilder`, `SheetPainter`, `PageRectangle` and `LegendreMoments` are not part of this model.
