# CellXplorer tooling, verified models

Models of the algorithms in CellXplorer's tooling layer, and proofs of what they promise. One module per component,
one file per module:

- `Template`: the small interpreter that renders the installer template.
- `Projection`, `Downsample`: the per-Cell projection with its trial rewrites, and the envelope-preserving downsampler.
- `Merge`, `Promotion`: merging one-Cell results that finish in any order, and the rule that promotes a worker count.
- `Bytes`, `Wire`, `WireRequest`, `Icon`: little-endian framing of kernel requests and responses, and icon files.
- `Display`: continuous time, segment bounds and the per-cycle display.
- `RowGroups`: the cycle-to-row-group index against a full scan.
- `Recorder`: the nested span timer.
- `Preflight`: the verification run and its skip cache.
- `Workers`: persistent test workers and sharded runs.
- `Handshake`: the update installer and the client it replaces.
- `Versions`: release tags, previous release, prerelease gate and bumps.
- `Summary`: percentile and top-k concentration.
- `Sorting`, `Common`: a stable sort over any order, and shared vocabulary.

Code that changes state step by step is a method or a class proved against a specification function; the theorems are
about those functions. The lemmas named `...Meaning` say what the functions give in terms of rows, bytes and numbers alone,
without the functions the code uses. Check everything with `dafny verify dfyconfig.toml`.

What the proofs found, each stated as an exact condition or shown on an input:

- Table-encoded provenance (T13) on a frame without a provenance column shows the consumer an empty list instead of one
  missing hash per row (`Projection.CandidateParity`, `Projection.NoColumnChangesView`).
- The dense cycle table (T8) raises on a map whose keys lie too far apart, where the unchanged projection goes on
  (`Projection.CandidateParity`, `Projection.WideMapRaises`).
- The owner gives cycle 0 to display-only rows, whose label has no entry in the map. T8 takes the 0 away: the row gets no
  cycle, with an empty map its own label as a cycle, and with a fractional label the cycle of the label cut to an integer
  (`Projection.SelectionParity`, `Projection.NoEntryShows`, `Projection.EmptyMapShows`, `Projection.CutRowShows`).
- The exact selection is recorded of indexed reads, but a read of the whole range brings display-only rows that the
  filter drops, so T7 shows rows that it should not (`Projection.SelectionParity`, `Projection.DisplayOnlyKept`).
- Cycle maps are recorded once per source, so a source that two Cells use at different places is mapped as in the first
  (`Projection.CollectMaps`, `Projection.SharedSourceShows`).
- The order check passes rows that are not in order when index labels repeat (`Projection.SortedCheckExact`).
- The downsampler returns rows that do not exist for an empty frame with a negative budget (`Downsample.RangeExactly`).
- The vectorised and the sequential clock differ on falls from or to infinity (`Display.TimeFormsAgree`).
- A row group is read for nothing on some request exactly when one of its labels is carried by no row exactly
  (`RowGroups.ReadGroupHits`).
- The installer commits on an exit long after a disconnect if the origin left a byte behind E unread
  (`Handshake.SettlesExactly`, `Handshake.UnreadByteCommitsLate`).
- A sharded test run with a worker that dies, even after its last answer, or without modules, raises while sorting its
  results, so the failure it meant to report is lost (`Workers.RunArchitectureC`, `Workers.LostReports`).
- The promotion rule raises on a missing fraction; for eight workers at any point but the first, for four only behind a
  point that qualifies (`Promotion.FourCandidates`, `Promotion.EightCandidates`). Times below zero are needed for it.
- A file edited while preflight runs, be the edit taken back or not, can be skipped unseen by the next run
  (`Preflight.HonestAfterChange`, `Preflight.EditDuringRunUnsound`, `Preflight.RevertedEditUnsound`).
- With two `else` tags the last one counts and the first becomes an unsupported token (`Template.SecondElse`).

## Model

| member | source | states |
|---|---|---|
| Template.FindBlock | scripts/check_installer_scope.py:45-55 | The scan over the candidates returns exactly the matching closer and the last `else` at depth one, or that the block is unclosed; any closing tag closes any opener. |
| Template.ScanFindsBlock | scripts/check_installer_scope.py:45-55 | From every scanning state the depth counter ends at the block of the opener: the tag where the nesting level first falls to zero, and the last `else` at level one before it. |
| Template.BlockUnique | scripts/check_installer_scope.py:45-55 | There is at most one such block, so the description fixes the answer. |
| Template.ScanSkipsAll | scripts/check_installer_scope.py:46-54 | Nothing inside a complete nested block belongs to the block around it. |
| Template.Render | scripts/check_installer_scope.py:34-66 | The cursor loop with recursion on sub-ranges computes the range semantics; the range length is the termination measure. |
| Template.RenderHead | scripts/check_installer_scope.py:37-65 | One turn of the loop: what it appends, and that the cursor advances past the tag or the whole block. |
| Template.RenderBlock | scripts/check_installer_scope.py:56-62 | A block renders its body per item, once, or its alternate; an `else` inside `each` is dropped. `Template.IfMeaning` says which. |
| Template.RenderEach | scripts/check_installer_scope.py:58-59 | Every item is rendered with `this` and the alias added to the enclosing context. |
| Template.HeadIsEval | scripts/check_installer_scope.py:37-65 | The head of a printed node evaluates to that node, whatever follows it. |
| Template.RangeIsEval | scripts/check_installer_scope.py:27-67 | Main result: for every well-formed forest, rendering its printed tokens is evaluating the tree, context before values. |
| Template.ItemsAreEval | scripts/check_installer_scope.py:58-59 | The same for the loop over an `each` value, item by item. |
| Template.RenderForest | scripts/check_installer_scope.py:36-66 | A printed forest renders independently of what follows it. |
| Template.UnmatchedFails | scripts/check_installer_scope.py:45-55 | Main result: a stream with an opener that has no closer fails, wherever the opener is and whatever surrounds it; and no other stream is reported as unclosed. |
| Template.FirstUnmatchedFails | scripts/check_installer_scope.py:36-55 | The first opener without a closer is never inside a block: the cursor comes to it, and the outcome is what is in front of it, then unclosed. |
| Template.UnclosedFails | scripts/check_installer_scope.py:55-55 | Behind any printed forest, an opener that is never closed gives the value of the forest, then unclosed. |
| Template.RenderCut | scripts/check_installer_scope.py:36-66 | Rendering can be cut at every position the cursor comes by: what is in front, then the rest. |
| Template.EvalNeverUnclosed | scripts/check_installer_scope.py:55-55 | Evaluating a tree never reports an unclosed block. |
| Template.UnknownTagFails | scripts/check_installer_scope.py:63-64 | At every position the cursor comes by, a tag known neither to the context nor to the values fails, unless something in front failed first; stray closers and a stray `else` are such tags. |
| Template.UnsupportedIsUnknown | scripts/check_installer_scope.py:63-64 | A token is reported as unsupported only if it is in the stream and known neither to the context nor to the values. |
| Template.AllKnownExactly | scripts/check_installer_scope.py:56-66 | Evaluating a tree succeeds if and only if every variable that evaluation comes by is known there. |
| Template.RendersIfKnown | scripts/check_installer_scope.py:27-67 | A stream that has a tree renders if and only if every variable that evaluation comes by is known there. |
| Template.SecondElse | scripts/check_installer_scope.py:54-61 | With two `else` tags the last one splits the block and a true condition runs into the first and fails. |
| Template.ParseOfPrint | scripts/check_installer_scope.py:27-67 | Parsing a printed well-formed forest gives the forest back. |
| Template.PrintOfParse | scripts/check_installer_scope.py:27-67 | Whatever parses is the print of the forest it parses to. |
| Template.RenderIsMeaning | scripts/check_installer_scope.py:27-67 | Exactly the prints of well-formed forests have a tree, and those render to their value. |
| Template.RenderTemplate | scripts/check_installer_scope.py:67-67 | The whole source renders to the value of its tree whenever it has one. |
| Template.TextMeaning | scripts/check_installer_scope.py:36-40 | Text is copied, and what follows it is joined to it. |
| Template.TagMeaning | scripts/check_installer_scope.py:63-65 | A tag shows its value: a string as it is, a list in its own notation, the one of the context before the global one; without a value it is unsupported. |
| Template.IfMeaning | scripts/check_installer_scope.py:54-61 | An `if` renders its body if and only if its value, the one of the context before the global one, is a string that is not empty or a list with items; otherwise its alternate, if it has one. |
| Template.EachMeaning | scripts/check_installer_scope.py:58-59 | An `each` renders its body once per item, or per character of a string, in order, each time with "this" and a non-empty alias bound to the item and every other name as before. |
| Template.OpenMeaning | scripts/check_installer_scope.py:55-55 | A block that has no closer fails, whatever its value. |
| Projection.SortedCheckExact | scripts/profile_time_capacity_ablation.py:242-247 | The order check compares index labels before and after sorting: rows in order pass it, and it tells rows that are not in order if and only if no two index labels are the same. |
| Projection.StableSortMeaning | scripts/profile_time_capacity_ablation.py:361-361 | An order of positions is the sort's if and only if it has every row once, no row above one with a larger key, rows of equal key as they were. |
| Projection.FilterIdentityExactly | scripts/profile_time_capacity_ablation.py:347-358 | The cycle filter changes nothing if and only if every row is selected. |
| Projection.FilterInOrder | scripts/profile_time_capacity_ablation.py:347-361 | Filtering rows in order leaves them in order, so skipping only the sort stays sound. |
| Projection.Extent | scripts/profile_time_capacity_ablation.py:302-302 | The smallest and the largest key of the dictionary. |
| Projection.FillTable | scripts/profile_time_capacity_ablation.py:305-306 | The table holds, for every label of the span, the dictionary entry or nothing. |
| Projection.DenseCycleMapping | scripts/profile_time_capacity_ablation.py:295-313 | Fails if and only if two keys lie further apart than the limit; otherwise every row gets the table entry of its cycle cut to an integer, missing if there is none. |
| Projection.TableIsDictionary | scripts/profile_time_capacity_ablation.py:295-313 | Table and dictionary lookup agree exactly on labels that are whole or missing, or whose integer part has no entry; with an empty dictionary, which the table takes as no mapping at all, only on missing labels. |
| Projection.TableIsOwner | backend/app/services/stitch.py:140-149 | The owner writes 0 for a label without entry; table and owner agree exactly on labels whose integer part has an entry and that are whole or have the entry 0, with an empty dictionary only on the label 0. |
| Projection.FractionIsCut | scripts/profile_time_capacity_ablation.py:309-312 | A fractional label that the table maps and the dictionary does not. |
| Projection.RemapSource | scripts/profile_time_capacity_ablation.py:331-336 | One source: its rows take what its dictionary says, all other rows keep their cycle; fails exactly if a row uses a map that is too wide. |
| Projection.ApplyOwnerCycleMapping | scripts/profile_time_capacity_ablation.py:316-338 | The loop over sources gives every row the cycle of its own source's map, or fails exactly if a map in use is too wide. |
| Projection.BuildTable | scripts/profile_time_capacity_ablation.py:505-509 | The provenance table holds exactly the hashes in use, known sources first, without repetition if the known order has none. |
| Projection.EncodeProvenance | scripts/profile_time_capacity_ablation.py:502-513 | Expanding the encoded provenance gives back every hash, missing ones included. |
| Projection.HashesCommute | scripts/profile_time_capacity_ablation.py:467-482 | Gathering the hash column is the hash column of the gathered rows. |
| Projection.SourceCyclesCommute | scripts/profile_time_capacity_ablation.py:467-482 | The same for source cycles. |
| Projection.PlotListIsPlot | scripts/profile_time_capacity_ablation.py:147-161 | The two null conversions agree on every array. |
| Projection.Emit | scripts/profile_time_capacity_ablation.py:451-513 | The consumer of the emitted payload sees the unchanged payload of the selected frame, except an empty hash list for T13 without a provenance column. |
| Projection.Project | scripts/profile_time_capacity_ablation.py:375-513 | Main result: remap, select, take and emit. For every frame and set of features the result is said column by column for the rows of the given frame: which rows are selected, in which order, which of them are taken, from which field to how many digits each value is, where the gaps are, and which hashes the consumer sees; or which map, or which missing row, made it raise. |
| Projection.SourceMeaning | scripts/profile_time_capacity_ablation.py:316-338 | With T8 every row of a mapped source gets what the last map of that source has for its label cut to an integer, every other row keeps its cycle. |
| Projection.WideMeaning | scripts/profile_time_capacity_ablation.py:303-304 | The projection raises on a map exactly if T8 is on, the frame has both provenance columns and a source in use has two keys that differ by more than 4096 and by more than 32 times the number of keys. |
| Projection.SelectedMeaning | scripts/profile_time_capacity_ablation.py:341-362 | Selected are, each once, exactly the rows whose cycle is in the list, or in the inclusive range if there is no list, by cycle, then segment, then record, rows of one key in the order they had; T7 and T6 leave out the filter and the sort where the invariant is recorded. |
| Projection.TakeMeaning | scripts/profile_time_capacity_ablation.py:427-449 | Taken are, ascending, all rows within the budget, else exactly the downsampled rows and the segment starts; it fails exactly if the downsampler names a row that does not exist. |
| Projection.ReferenceMeaning | scripts/profile_time_capacity_ablation.py:451-492 | Column by column: cycle cut to an integer, voltage from the voltage field and current from the current field to 5 digits, time to 3, display and capacity to 6, phase, source cycle and hash of the row taken, a missing value missing; a gap exactly where two rows taken are more than one apart. |
| Projection.RemapIdentity | scripts/profile_time_capacity_ablation.py:316-338 | Remapping a frame whose cycles are what its owner wrote changes it if and only if it holds a display-only row, with cycle 0, that the table gives something else than 0. |
| Projection.MovedMeaning | scripts/profile_time_capacity_ablation.py:295-338 | Which display-only rows that are: those of a mapped source whose label is missing or whose integer part has no entry or one other than 0; with an empty map those whose label is not 0. |
| Projection.SelectionParity | scripts/profile_time_capacity_ablation.py:316-362 | Main result: for every frame whose cycles are what its owner wrote, whatever invariants are recorded, a feature set selects what the unchanged projection selects, if and only if T8 meets no map in use that is too wide and moves no row that is selected before or after, T7 skips the filter only where it keeps every row, and T6 skips the sort only where the selection is in order. |
| Projection.TrueInvariants | scripts/profile_time_capacity_ablation.py:341-362 | If the recorded invariants are true of the frame, T6 and T7 select alike and only T8 is left. |
| Projection.CandidateParity | scripts/profile_time_capacity_ablation.py:184-209 | Main result: for every frame whose cycles are what its owner wrote, every subset of T6, T7, T8, T10, T13, T14 and every engine, if the same rows are selected the consumer sees the unchanged payload if and only if T8 meets no map in use that is too wide and either T13 is off, the provenance column exists, or no row is taken; a map that is too wide always shows. |
| Projection.ParityForEveryEngine | scripts/profile_time_capacity_ablation.py:184-209 | Main result: for every frame whose cycles are what its owner wrote, parity holds over all engines if and only if the selection is the same, as the row of `Projection.SelectionParity` says, and T13 does not meet a frame without provenance column of which a row is selected. |
| Projection.NoEntryShows | scripts/profile_time_capacity_ablation.py:307-313 | A display-only row whose label has no entry: every engine shows cycle 0 without T8 and a missing cycle with it. |
| Projection.EmptyMapShows | tests/test_time_capacity_path.py:242-266 | A curve-only source shown from cycle 1: without T8 its row is filtered out, with T8 it joins cycle 1. |
| Projection.DisplayOnlyKept | scripts/profile_time_capacity_ablation.py:630-635 | The exact selection is recorded without looking at rows: of a curve-only source and a complete cycle, shown from cycle 1, T7 shows two rows instead of one. |
| Projection.CollectMaps | scripts/profile_time_capacity_ablation.py:632-642 | Each source once, in the order of first use, with the dictionary of the first plan that has it. |
| Projection.SharedSourceShows | scripts/profile_time_capacity_ablation.py:632-642 | A source that two Cells use at different places is recorded with the first Cell's map, and T8 renumbers the second Cell's row. |
| Projection.WideMapRaises | scripts/profile_time_capacity_ablation.py:295-338 | A map with keys 1 and 5000 whose cycles are right: the invariants are true, T8 raises and the unchanged projection does not. |
| Projection.CutRowShows | scripts/profile_time_capacity_ablation.py:309-338 | A row with the fractional label 2.5, to which the owner gave cycle 0: T8 shows the cycle of label 2. |
| Projection.NoColumnChangesView | scripts/profile_time_capacity_ablation.py:502-513 | One row without provenance column is enough: T13 turns its missing hash into an empty list. |
| Downsample.FindExtreme | scripts/profile_time_capacity_ablation.py:278-286 | The first position of the smallest or largest finite value of a range. |
| Downsample.Downsample | scripts/profile_time_capacity_ablation.py:250-292 | The nested loops select exactly the specified set of rows, for every budget, zero and negative ones included. |
| Downsample.IndicesMeaning | scripts/profile_time_capacity_ablation.py:250-292 | Main result: the rows returned are, ascending, all rows within the budget, else exactly the ends, both sides of each visibility change, the first extremes of each usable series in each bucket with their neighbours, and, if these leave room, the evenly spaced rows that use it up. |
| Downsample.EdgesMeaning | scripts/profile_time_capacity_ablation.py:270-272 | With as many buckets as fit the budget, edge b is the row e with e * count <= b * length < (e + 1) * count. |
| Downsample.FillMeaning | scripts/profile_time_capacity_ablation.py:289-291 | The fill holds exactly the rows p with p * (room + 1) <= k * (length - 1) < (p + 1) * (room + 1) for some k from 0 to room + 1. |
| Downsample.Select | scripts/profile_time_capacity_ablation.py:269-291 | Mandatory rows, bucket extremes with neighbours, and the fill. |
| Downsample.SelectEnvelope | scripts/profile_time_capacity_ablation.py:273-288 | The union over all buckets and series. |
| Downsample.SelectBucket | scripts/profile_time_capacity_ablation.py:277-288 | Both extremes of every series in one bucket, each with its neighbours inside the frame. |
| Downsample.SelectFill | scripts/profile_time_capacity_ablation.py:289-291 | The evenly spaced rows that use up the budget. |
| Downsample.BucketOf | scripts/profile_time_capacity_ablation.py:272-276 | Every row lies in one of the buckets. |
| Downsample.KeepsEnds | scripts/profile_time_capacity_ablation.py:258-292 | For a frame with rows the result is strictly increasing, in range, and starts and ends at the first and last row. |
| Downsample.RangeExactly | scripts/profile_time_capacity_ablation.py:258-292 | All returned rows exist if and only if the frame has rows or the budget is not negative. |
| Downsample.EmptyFrameOutOfRange | scripts/profile_time_capacity_ablation.py:258-292 | No rows and a budget of minus one: a row is returned that does not exist. |
| Downsample.KeepsBucketExtremes | scripts/profile_time_capacity_ablation.py:274-288 | Every bucket keeps both extremes of every usable series with their neighbours. |
| Downsample.KeepsExtremes | scripts/profile_time_capacity_ablation.py:264-288 | The global finite minimum and maximum of every usable series are attained at kept rows. |
| Downsample.AdjacentChange | scripts/profile_time_capacity_ablation.py:260-263 | Two consecutive kept rows of different visibility are neighbours in the source. |
| Downsample.KeepsRuns | scripts/profile_time_capacity_ablation.py:260-292 | The sequence of visible and hidden runs is unchanged. |
| Downsample.EnvelopeBudget | scripts/profile_time_capacity_ablation.py:269-288 | Before the fill: at most the budget, or the mandatory rows and one bucket. |
| Downsample.FillBudget | scripts/profile_time_capacity_ablation.py:289-291 | The fill cannot overshoot, because its two ends are kept already. |
| Downsample.Budget | scripts/profile_time_capacity_ablation.py:258-292 | Main result on size: at most max(budget, mandatory rows + points per bucket). |
| Merge.SortRestores | scripts/profile_analysis_family_concurrency.py:381-381 | Sorting any completion order of results with distinct ordinals restores the selection. |
| Merge.MergeCycles | scripts/profile_analysis_family_concurrency.py:378-434 | The merge of cycle results is the fold over the results in ordinal order. |
| Merge.MetricsMeaning | scripts/profile_analysis_family_concurrency.py:402-424 | Main result: one metric entry for each group that has a series not excluded and with cycles, none twice, in the order in which groups first appear among all series; members are exactly those series, as often and in the order selected, and the name is the first member's. |
| Merge.AggregatesMeaning | scripts/profile_analysis_family_concurrency.py:388-401 | The same for the aggregates, over series that are grouped, not excluded and have points; groups in the order of first appearance among these, and the name is the last member's. None without replicate means. |
| Merge.BuildGroups | scripts/profile_analysis_family_concurrency.py:389-395 | The insertion-ordered dictionary of replicate groups: order of first appearance, members in selection order. |
| Merge.AddMember | scripts/profile_analysis_family_concurrency.py:392-395 | One series goes behind the members of its own group and nowhere else. |
| Merge.MergeAggregates | scripts/profile_analysis_family_concurrency.py:388-401 | One aggregate per group with its members and the name the last member gave, none without replicate means. |
| Merge.MergeMetrics | scripts/profile_analysis_family_concurrency.py:402-424 | Cycle metrics per group in first-appearance order, skipping groups without measured members. |
| Merge.CycleMergeOrderIrrelevant | scripts/profile_analysis_family_concurrency.py:378-434 | Main result: any completion order gives the same series, sources, badges and groups. |
| Merge.GroupsPartition | scripts/profile_analysis_family_concurrency.py:389-401 | Groups partition the averaged series: each is in exactly one group as often as selected, no group empty or repeated. |
| Merge.VerdictMeaning | scripts/profile_analysis_family_concurrency.py:494-497 | Compatible means a match and one protocol for all; complete means every selected Cell was matched and no other; the rate verdict differs only for an empty selection. |
| Merge.VerdictOrderIrrelevant | scripts/profile_analysis_family_concurrency.py:494-497 | The verdicts depend only on which matches there are, not on their order or repetition. |
| Merge.MergeChargeability | scripts/profile_analysis_family_concurrency.py:482-537 | Main result: whatever order the Cells finish in, matches, cells, badges, sources and the verdict are those of the selection in its order, with a mismatch badge last exactly if something matched but not one protocol. |
| Merge.MergeRate | scripts/profile_analysis_family_concurrency.py:540-633 | The same for rate capability: compared blocks, one verdict per family, badges, sources and the count of invalid blocks. |
| Merge.CollectEvidence | scripts/profile_time_capacity_concurrency.py:1576-1589 | The loops gather, per quantity, whether there is data and which roles and references were reported; fails exactly on data about an unknown quantity. |
| Merge.EvidenceMeaning | scripts/profile_time_capacity_concurrency.py:1583-1589 | There is data on a quantity if and only if some fact with data is on it; roles and references are exactly those that such facts report. |
| Merge.EvidenceJoins | scripts/profile_time_capacity_concurrency.py:1583-1589 | The evidence of two batches together is the join of their evidence. |
| Merge.JoinLaws | scripts/profile_time_capacity_concurrency.py:1583-1589 | The join is associative, commutative, idempotent and has a unit. |
| Merge.Resolve | scripts/profile_time_capacity_concurrency.py:1591-1617 | The default role if and only if none was reported, the reported one if and only if it is the only one, mixed for several; a reference is kept exactly if it is the only one, not missing, and the role is not mixed. |
| Merge.MixedExactly | scripts/profile_time_capacity_concurrency.py:1592-1599 | A role is mixed if and only if two roles were reported, or the only one is itself "mixed". |
| Merge.MergeWholeCells | scripts/profile_time_capacity_concurrency.py:1621-1664 | Main result: whatever order whole Cells were completed in, traces, badges, versions and the resolved voltage channels are those of the selection in its order; fails exactly on data about an unknown quantity. |
| Merge.ResolveChannels | scripts/profile_time_capacity_concurrency.py:1568-1618 | Every quantity is resolved from what all parts report about it. |
| Promotion.MemoryGateMeaning | scripts/profile_analysis_family_concurrency.py:87-107 | The memory gate is exactly: both sums known, the base positive, and at most one and a half times the base. |
| Promotion.LargerIsQualifies | scripts/profile_analysis_family_concurrency.py:1318-1325 | The test of a larger point passes exactly where the point itself qualifies. |
| Promotion.NoFault | scripts/profile_analysis_family_concurrency.py:1251-1261 | Where times are not negative a missing fraction is never compared. |
| Promotion.FaultPossible | scripts/profile_analysis_family_concurrency.py:1318-1321 | A base of zero and a negative time make the comparison fault. |
| Promotion.FromStart | scripts/profile_analysis_family_concurrency.py:1314-1327 | All points from an index on pass, exactly when the index is not before the start of the longest passing suffix. |
| Promotion.LargerFour | scripts/profile_analysis_family_concurrency.py:1314-1325 | The loop over larger counts passes, fails or faults as its first point that does not pass. |
| Promotion.FourCandidates | scripts/profile_analysis_family_concurrency.py:1299-1327 | Candidates are exactly the longest all-qualifying suffix; the rule faults if and only if a point right behind a qualifying one has no fraction to compare. |
| Promotion.LargerEight | scripts/profile_analysis_family_concurrency.py:1365-1391 | Time and memory over the larger counts, with every memoised gate equal to direct computation. |
| Promotion.EightAt | scripts/profile_analysis_family_concurrency.py:1340-1393 | A count is a candidate exactly if it is not before either start. |
| Promotion.EightCandidates | scripts/profile_analysis_family_concurrency.py:1330-1393 | Candidates, the two qualifying lists and the complete gate table; faults if and only if any point but the first has no fraction to compare. |
| Promotion.Minimum | scripts/profile_analysis_family_concurrency.py:1328-1328 | The smallest candidate, if there is one. |
| Promotion.PromotionDecision | scripts/profile_analysis_family_concurrency.py:1293-1403 | Main result: thresholds are the suffix starts, for eight workers the larger of the timing and the memory start. Said in numbers: four workers save 10 ms and 15 percent, eight save 15 ms and 15 percent within one and a half times the memory on a ready host, both with parity, ordering and cross-parity, at the point and at every larger one; a larger candidate list decides over a smaller one; the rule raises exactly on a larger point without a fraction. |
| Promotion.WorthIsQualifies | scripts/profile_analysis_family_concurrency.py:1251-1325 | What qualifies and what faults at one point, in numbers and without a division. |
| Promotion.UpwardClosed | scripts/profile_analysis_family_concurrency.py:1314-1327 | With a candidate every larger count is one and qualifies. |
| Promotion.EightIsIntersection | scripts/profile_analysis_family_concurrency.py:1392-1393 | The candidates for eight are exactly those sustained in time and sustained in memory. |
| Promotion.NeverFaults | scripts/profile_analysis_family_concurrency.py:1251-1261 | With times that are not negative the whole rule never faults. |
| Wire.DecodeOfResponse | scripts/profile_rust_derivative_kernel.py:582-625 | Decoding what the worker wrote gives the response back. |
| Wire.DecodesExactlyEncodings | scripts/profile_rust_derivative_kernel.py:582-625 | Main result: a body is accepted if and only if it is the encoding of a response, and re-encoding the result gives the body; nothing trails. |
| Wire.DecodeResponse | scripts/profile_rust_derivative_kernel.py:582-625 | The cursor-based decoder gives exactly that, and counts sixteen numeric bytes per output row. |
| Wire.ResponseMeaning | scripts/profile_rust_derivative_kernel.py:582-625 | Where in the body every field of the decoded response lies, byte by byte, lowest byte first. |
| Wire.TrailingMeaning | scripts/profile_rust_derivative_kernel.py:613-614 | Bytes are reported as trailing if and only if a response ends before them. |
| Wire.UnsupportedMeaning | scripts/profile_rust_derivative_kernel.py:584-592 | A body is unsupported if and only if its header is complete and does not begin with the magic number and version 1. |
| Wire.DecodeCells | scripts/profile_rust_derivative_kernel.py:593-612 | The loop over Cells: fails exactly where the format does, and leaves the cursor behind the last one. |
| Wire.DecodeCell | scripts/profile_rust_derivative_kernel.py:596-612 | One Cell: fails exactly where the format does, and leaves the cursor behind it. |
| Wire.DecodeSegment | scripts/profile_rust_derivative_kernel.py:602-611 | One segment, with its truncation check. |
| WireRequest.EncodeRequest | scripts/profile_rust_derivative_kernel.py:480-555 | Fails exactly on misaligned buffers and on a window or count of 2^32 or more; the frame is the specified one, its length is twenty plus the per-Cell and per-segment headers plus the reported numeric bytes. |
| WireRequest.RequestMeaning | scripts/profile_rust_derivative_kernel.py:480-555 | Where in the frame every setting, column and flag of a request lies, byte by byte: magic, version, kind, five codes, window, count, then the Cells up to the end of the frame. |
| WireRequest.EncodeCells | scripts/profile_rust_derivative_kernel.py:514-540 | All Cells of a normal request, in order; fails exactly if one of them does. |
| WireRequest.EncodeCell | scripts/profile_rust_derivative_kernel.py:517-540 | One Cell: fails exactly on misaligned columns or too many rows, thirty-three numeric bytes per row. |
| WireRequest.EncodeSegments | scripts/profile_rust_derivative_kernel.py:541-554 | All Cells of a derivative request; fails exactly if one of them does. |
| WireRequest.EncodeCellSegments | scripts/profile_rust_derivative_kernel.py:542-554 | The segments of one Cell; fails exactly on too many segments or a segment that fails. |
| WireRequest.EncodeSegment | scripts/profile_rust_derivative_kernel.py:544-554 | One segment: fails exactly on misaligned columns or too many rows, seventeen numeric bytes per row. |
| WireRequest.WorkerRecovers | scripts/rust_derivative_kernel/src/main.rs:134-238 | The worker's parser recovers every request with a window and a Cell, and rejects the others as invalid settings. |
| WireRequest.RequestInjective | scripts/profile_rust_derivative_kernel.py:480-555 | Two requests with the same frame are the same request, for both kernel kinds. |
| Icon.WriteIco | scripts/build_alpha_icons.py:137-166 | The written file: header, directory, payloads. |
| Icon.WriteFrames | scripts/build_alpha_icons.py:141-162 | The running offset and the two accumulators give the directory and the payloads. |
| Icon.Contiguous | scripts/build_alpha_icons.py:146-162 | Every range ends where the next begins, the last one with the payloads. |
| Icon.PayloadAt | scripts/build_alpha_icons.py:150-166 | A frame's range of the payloads is its payload. |
| Icon.FileEndsWithPayloads | scripts/build_alpha_icons.py:163-166 | Behind header and directory the file is the payloads. |
| Icon.IconRoundTrip | scripts/build_alpha_icons.py:137-166 | Main result: reading the directory recovers every size (0 meaning 256) and every payload; ranges are consecutive up to the file length. |
| Icon.FileMeaning | scripts/build_alpha_icons.py:137-166 | The file in bytes: 0, 1 and the frame count; per frame the size twice with 0 for 256, two zeros, 1 plane, 32 bits, length and place; and at that place the payload. |
| Display.Accumulate | scripts/rust_derivative_kernel/src/main.rs:386-400 | The sequential pass with a running offset shifts every row by the sum of the clock values before the finite resets so far. |
| Display.TimeShape | scripts/profile_rust_derivative_kernel.py:892-904 | The vectorised form shifts every row by the cumulative sum, whether it takes the early return or not. |
| Display.TimeFormsAgree | scripts/profile_rust_derivative_kernel.py:892-904 | Main result: both forms agree if and only if no clock value falls from plus infinity and no fall to minus infinity from a non-zero value is followed by a finite one. |
| Display.TimeMeaning | scripts/profile_rust_derivative_kernel.py:892-904 | On a clock without gaps the time starts as the clock does and goes on by what the clock goes on or, after a fall, shows; in both forms. |
| Display.TimeAxisMeaning | scripts/profile_rust_derivative_kernel.py:914-916 | The axis shows that time divided by the seconds of its unit; what is not finite stays. |
| Display.FormsCanDiffer | scripts/rust_derivative_kernel/src/main.rs:386-400 | A two-row clock on which they differ. |
| Display.DifferencesKept | scripts/profile_rust_derivative_kernel.py:892-904 | Inside a run without reset all differences are those of the input. |
| Display.NeverGoesBack | scripts/profile_rust_derivative_kernel.py:892-904 | For a finite, non-negative clock the result never goes back. |
| Display.BoundsAreMaximalRuns | scripts/profile_rust_derivative_kernel.py:137-151 | The bounds cut the rows into the maximal runs of constant cycle, segment and phase: none empty, consecutive, keys differ exactly where two meet. |
| Display.ChangedMeaning | scripts/profile_rust_derivative_kernel.py:137-151 | A segment starts where cycle, segment or phase differ from the row before, or a number is NaN. |
| Display.SegmentsAlign | scripts/profile_rust_derivative_kernel.py:866-889 | Concatenated per-segment outputs hold each row's value at that row's place. |
| Display.SegmentsCoverFrame | scripts/profile_rust_derivative_kernel.py:866-889 | Main result on segments: kernels that give each maximal run of a frame as many values as it has rows give one value per row of the frame, each in its row's place. |
| Display.ShowConsecutive | scripts/profile_rust_derivative_kernel.py:919-921 | All rows relative to the first finite one; unchanged if there is none. |
| Display.ConsecutiveMeaning | scripts/profile_rust_derivative_kernel.py:919-921 | Finite rows less the first finite one; infinities and NaN stay. |
| Display.UniqueCycles | scripts/profile_rust_derivative_kernel.py:924-924 | Every cycle once, ascending. |
| Display.ShowGroup | scripts/profile_rust_derivative_kernel.py:925-936 | Writes exactly the finite rows of one cycle's phase. |
| Display.ProjectDisplay | scripts/profile_rust_derivative_kernel.py:907-937 | Every finite charge and discharge row shows what its own group says, every other row is NaN. |
| Display.DisplayMeaning | scripts/profile_rust_derivative_kernel.py:923-936 | Main result: a finite charge row, and in per-cycle mode a finite discharge row, shows its value less that of the first finite row of its cycle and phase; in overlap mirror a finite discharge row shows the largest value of its cycle and phase less its own; every other row is NaN. |
| Display.GroupHasEnds | scripts/profile_rust_derivative_kernel.py:925-935 | Every finite row has a first and a largest row in its cycle and phase. |
| Display.DisplayUnique | scripts/profile_rust_derivative_kernel.py:923-936 | That description leaves no freedom. |
| Display.OneGroup | scripts/profile_rust_derivative_kernel.py:924-936 | A finite row is in the rows of its own cycle and phase only, at one position, so it is written once. |
| Display.StartsAtZero | scripts/profile_rust_derivative_kernel.py:933-933 | An unmirrored group starts at zero. |
| Display.MirrorWithinRange | scripts/profile_rust_derivative_kernel.py:934-935 | A mirrored group does not go below zero, reaches zero, reverses all distances, and stays below its span if it never fell below its start. |
| Display.TimeGroupsClimb | scripts/profile_rust_derivative_kernel.py:914-936 | On the time axis of a finite, non-negative clock every group climbs from zero, whatever resets the clock had. |
| RowGroups.BuildIndex | scripts/profile_raw_cache_layout.py:45-57 | The index lists, for every cycle, exactly the groups that observe it, in order; fails exactly on a label that is not integer-like. |
| RowGroups.IndexGroup | scripts/profile_raw_cache_layout.py:48-57 | One group is appended to every label it observes and to no other. |
| RowGroups.ObservedLabels | scripts/profile_raw_cache_layout.py:49-54 | The observed labels, ascending, or the error. |
| RowGroups.RoundMeaning | backend/app/services/canonical_cycling.py:64-74 | A label is rounded to the nearest integer, the even one of two. |
| RowGroups.LabelMeaning | backend/app/services/canonical_cycling.py:64-74 | It may differ from it by 1e-8 and a hundred-thousandth of it. |
| RowGroups.LabelsMeaning | scripts/profile_raw_cache_layout.py:48-57 | A group observes exactly the integers nearest to its labels. |
| RowGroups.Collect | scripts/profile_raw_cache_layout.py:68-74 | The groups found for any of the requested cycles. |
| RowGroups.SelectGroups | scripts/profile_raw_cache_layout.py:68-74 | Exactly the groups that observe a requested cycle, ascending. |
| RowGroups.ReadGroups | scripts/profile_raw_cache_layout.py:76-84 | Reading by position materialises exactly as many rows as the group sizes add up to. |
| RowGroups.Measure | scripts/profile_raw_cache_layout.py:39-98 | The measured read returns exactly the rows a full scan returns, in order; physical and materialised counts agree. |
| RowGroups.IndexEqualsScan | scripts/profile_raw_cache_layout.py:67-78 | Main result: for every table, every cut into groups and every request, filter after indexed read is filter of the whole table. |
| RowGroups.FilterMeaning | scripts/profile_raw_cache_layout.py:78-78 | A row is kept, in its place, if and only if its cycle is one of the requested. |
| RowGroups.WantedMeaning | scripts/profile_raw_cache_layout.py:68-74 | The groups read are, ascending, exactly those that observe a requested cycle. |
| RowGroups.ReadGroupHits | scripts/profile_raw_cache_layout.py:68-78 | For every group: no request reads it for nothing, if and only if each label of the group is also carried exactly by one of its rows. |
| RowGroups.NearIntegerReadsForNothing | scripts/profile_raw_cache_layout.py:49-78 | A tolerated near-integer label makes a group be read without a row. |
| Recorder.Recorder.constructor | scripts/profile_analysis_families.py:154-160 | All books empty. |
| Recorder.Recorder.Add | scripts/profile_analysis_families.py:162-179 | Books one addition to name, calls and parent edges; exclusive time defaults to the whole. |
| Recorder.Recorder.Enter | scripts/profile_analysis_families.py:181-186 | Pushes a frame with its start time. |
| Recorder.Recorder.Leave | scripts/profile_analysis_families.py:187-197 | Pops the frame, credits its time to the frame below and books the clamped rest. |
| Recorder.DirectMeaning | scripts/profile_analysis_families.py:162-179 | A direct addition books all of its time as its own, under the innermost open span or the hint, and credits no span. |
| Recorder.EndMeaning | scripts/profile_analysis_families.py:187-197 | Closing a span books its milliseconds, of them as its own what its children leave, at least nothing, one call and its parent, and credits all of them to the span around it; every other name is as before. |
| Recorder.FirstParentStays | scripts/profile_analysis_families.py:174-176 | A name keeps the parent it was first booked under. |
| Recorder.StepBalances | scripts/profile_analysis_families.py:181-197 | One event keeps the account balanced, and the clamp at zero never fires. |
| Recorder.Conservation | scripts/profile_analysis_families.py:162-197 | Main result: over every run with a non-decreasing clock, exclusive times of all names add up to outermost elapsed times, direct additions and what children of open spans took. |
| Recorder.ClosedRunConserves | scripts/profile_analysis_families.py:162-197 | Once all spans are closed nothing is left over. |
| Recorder.ForestAccounts | scripts/profile_analysis_families.py:162-216 | Main result: for every call tree, with parent hints and direct additions anywhere, each name's inclusive and exclusive time, calls and parent edges are exactly the tree's, recursion included. |
| Recorder.SpanAccounts | scripts/profile_analysis_families.py:181-197 | The same for one span. |
| Recorder.SequentialBound | scripts/profile_analysis_families.py:187-193 | Children never take longer than their parent. |
| Preflight.Workspace.WriteCache | scripts/preflight.py:211-228 | The cache holds both hashes and the verdict. |
| Preflight.Workspace.ShouldSkipBuild | scripts/preflight.py:231-242 | Skips exactly on a passing cache whose hash is not empty and matches. |
| Preflight.SkipMeaning | scripts/preflight.py:231-254 | A stage is skipped exactly if caching is on and the cache is of a run that passed, with this hash, which is not empty. |
| Preflight.Workspace.RunPreflight | scripts/preflight.py:412-547 | Exit code and cache after a run: failures, early stop, interruption and success. |
| Preflight.ExitZero | scripts/preflight.py:468-547 | Exit code 0 exactly when every stage that was not skipped returned 0, for any completion order. |
| Preflight.ExitMeaning | scripts/preflight.py:412-547 | The exit code is 1 without prerequisites, 130 on interruption, else the code of the version check or of the first stage to finish badly. |
| Preflight.CacheMeaning | scripts/preflight.py:483-540 | The cache is written exactly by a run that is neither refused nor interrupted before its last stage, with the verdict of that run. |
| Preflight.OrderIrrelevant | scripts/preflight.py:513-533 | The completion order changes neither success nor the cache. |
| Preflight.HistoryStaysHonest | scripts/preflight.py:412-547 | Over every history of runs and edits between them a passing cache stays proved. |
| Preflight.SkipIsSound | scripts/preflight.py:231-254 | Main result: whatever is skipped has succeeded before on exactly the present inputs. |
| Preflight.HonestAfterChange | scripts/preflight.py:412-547 | Main result on one run: whatever files change under it and whatever each stage reads of them, an honest cache stays honest if and only if the run fails or, for type check, bundle and policy tests each, the hash taken at the end is empty, was proved before, or is that of what the stage read, if it ran. |
| Preflight.EditDuringRunUnsound | scripts/preflight.py:535-540 | A change after a stage has read its files is enough to skip a type check that never saw them. |
| Preflight.RevertedEditUnsound | scripts/preflight.py:535-540 | So is a change that is taken back before the end: the tree is the one before the run, but the type check never saw it. |
| Preflight.EarlyEditIsHonest | scripts/preflight.py:535-540 | A change that all stages read is harmless if none of them was skipped. |
| Workers.Process.Reset | scripts/benchmark_test_runners.py:332-344 | Back to the base environment, directory and import path, without app modules; fails exactly if disposing raises or the base directory is gone. |
| Workers.Process.RunModule | scripts/benchmark_test_runners.py:347-382 | If a suite is loaded, it is loaded in isolation, with just the non-app modules left over; the payload is the suite's verdict. |
| Workers.Process.ServeOne | scripts/benchmark_test_runners.py:391-417 | One request, one payload; any exception becomes a failing payload. |
| Workers.Process.Serve | scripts/benchmark_test_runners.py:385-420 | Main result: for every sequence of requests and whatever suites do, each suite is loaded in a state fixed by base, data root and job count, and success is its own. |
| Workers.ConfiguredMeaning | scripts/benchmark_test_runners.py:78-84 | The environment of a module: data root, parallel flag, job count, and a worker cap that is the processor budget less the jobs and two, within one and twelve; every other variable is inherited from the base. |
| Workers.IsAppMeaning | scripts/benchmark_test_runners.py:332-344 | An app module is `app`, `backend` or `tests`, or inside one of them. |
| Workers.EffectiveShards | scripts/benchmark_test_runners.py:63-65 | At least one shard, never more than modules. |
| Workers.DealtMeaning | scripts/benchmark_test_runners.py:63-65 | Modules in reverse if asked; as many shards as asked, or as processors, but not more than modules or budget, and at least one. |
| Workers.ShardMeaning | scripts/benchmark_test_runners.py:496-496 | Shard i has module i and every n-th from there, in order. |
| Workers.ShardSize | scripts/benchmark_test_runners.py:496-496 | A shard gets an even share, one more if it is among the first of the remainder. |
| Workers.ShardsBalanced | scripts/benchmark_test_runners.py:496-496 | Shards differ by at most one module, and none is empty if there are enough. |
| Workers.ShardsPartition | scripts/benchmark_test_runners.py:496-496 | Together the shards hold every module as often as it is listed. |
| Workers.RunShard | scripts/benchmark_test_runners.py:423-480 | All replies in order, or the error exactly if a worker is gone before one of them or before it takes the stop command. |
| Workers.Complete | scripts/benchmark_test_runners.py:499-525 | For any order of completion there is one result per shard, a failed one without modules. |
| Workers.RunArchitectureC | scripts/benchmark_test_runners.py:483-552 | Reports if and only if every shard has modules and its worker answered all and took the stop command; the report has every answer, success means every answer and every exit code is good, and if modules are named as asked their order does not depend on completion. |
| Workers.AllWellMeaning | scripts/benchmark_test_runners.py:531-546 | What success is: every module answered with success and without failures, and every worker exited with 0. |
| Workers.SortedKeys | scripts/benchmark_test_runners.py:526-530 | Sorting by first module gives one order whatever finished first. |
| Workers.AnswersCover | scripts/benchmark_test_runners.py:526-530 | Workers that name what they were asked for name every module as often as it is listed. |
| Workers.SuccessCoversEach | scripts/benchmark_test_runners.py:544-546 | Success names every module exactly once, with a payload that succeeded. |
| Workers.ServingIsHonest | scripts/benchmark_test_runners.py:391-417 | Workers whose replies are what serving gives name the modules they were asked for. |
| Workers.SuccessMeansRuns | scripts/benchmark_test_runners.py:385-552 | Main result on sharded runs: with such workers, success means that every module's suite was loaded in isolation and was successful, in the process of its shard. |
| Workers.LostReports | scripts/benchmark_test_runners.py:516-530 | A worker that dies, be it after its last answer, or an empty module list, makes the sort key fail, so there is no report at all. |
| Handshake.StepKeepsInvariant | src-tauri/update_recovery.nsh:217-343 | Every installer and origin step keeps the protocol invariant. |
| Handshake.RunKeepsInvariant | src-tauri/update_recovery.nsh:217-343 | So does every run. |
| Handshake.Safety | src-tauri/update_recovery.nsh:217-321 | Main result: the destructive phase has run only if each of the eight identity checks passed, the bytes 82, 67, 65, 69 were exchanged in order and the origin is gone. |
| Handshake.EarlyDisconnectAborts | src-tauri/update_recovery.nsh:323-343 | A disconnect before both origin bytes were written ends in failure, in every continuation. |
| Handshake.VerdictIsFinal | src-tauri/update_recovery.nsh:318-321 | Committing and failing exclude each other and are never left. |
| Handshake.SettlesOnce | src-tauri/update_recovery.nsh:299-312 | In the settlement wait the next installer step decides, and goes on only if the origin is gone by then. |
| Handshake.SettlesExactly | src-tauri/update_recovery.nsh:290-317 | Main result: from any state after E with the pipe closed, three installer turns decide and a later exit never commits, over every run, if and only if not all of these hold: a byte behind E is unread, the origin lives, another poll fits the timeout. |
| Handshake.UnreadByteCommitsLate | src-tauri/update_recovery.nsh:290-317 | The failing input: C, E, one byte more and a disconnect; the installer can poll as often as the timeout allows and commit on a later exit without having seen the disconnect. |
| Handshake.RankDrops | src-tauri/update_recovery.nsh:290-342 | Every installer step lowers a bound. |
| Handshake.DeadlineMeaning | src-tauri/update_recovery.nsh:290-343 | A read is polled every 25 ms until the time waited has reached the timeout, the exit as long as the next poll stays below it. |
| Handshake.ReadMeaning | src-tauri/update_recovery.nsh:323-343 | The expected byte goes on, another byte, a broken pipe or a fault fails. |
| Handshake.InstallerTurnsBounded | src-tauri/update_recovery.nsh:290-342 | So every run has a bounded number of installer steps. |
| Handshake.NeverStuck | src-tauri/update_recovery.nsh:217-343 | Short of a verdict the installer always has a next step. |
| Handshake.CommitReachable | scripts/check_update_recovery.py:294-341 | The two committing cases can commit. |
| Handshake.CaseOutcome | scripts/check_update_recovery.py:352-358 | Main result: a scripted case can commit if and only if it is one of the two the fixture requires to. |
| Handshake.CommitsUnlessExcused | scripts/check_update_recovery.py:294-358 | A committing case whose run is over has committed, unless a system call failed, a poll used up the timeout, the pipe lost its bytes, or the origin outlived the settlement wait. |
| Versions.KeyIsPrecedence | scripts/installer_upgrade_gate.py:23-36 | Within a channel the sort key orders tags exactly as section 11 of Semantic Versioning 2.0.0; a compact beta is text and above dotted ones. |
| Versions.KeyInjective | scripts/installer_upgrade_gate.py:27-36 | The key is injective within a channel. |
| Versions.PrecedenceMeaning | scripts/installer_upgrade_gate.py:27-36 | Of tags with one core and one channel: numbers by value, compact suffixes as text and above dotted ones. |
| Versions.CoreMeaning | scripts/installer_upgrade_gate.py:34-35 | The first of major, minor and patch that differs decides. |
| Versions.TextMeaning | scripts/installer_upgrade_gate.py:34-36 | Text is lower at the first character that differs, or if it ends there. |
| Versions.CollectEligible | scripts/installer_upgrade_gate.py:39-50 | The filtering loop keeps exactly the eligible rows. |
| Versions.EligibleMeaning | scripts/installer_upgrade_gate.py:43-49 | Eligible is a published release of the channel, not the candidate, and below it if the candidate is of this channel. |
| Versions.PreviousRelease | scripts/installer_upgrade_gate.py:39-52 | Nothing if and only if no row is eligible; otherwise an eligible row that every other eligible one equals or precedes. |
| Versions.ReleaseRows | scripts/release_channel_policy.py:40-53 | Pages and single rows flattened in order, or the error of an invalid entry. |
| Versions.RowsMeaning | scripts/release_channel_policy.py:43-53 | Each entry behind the others adds its rows: a page those in it, a single row itself; an invalid entry makes the whole invalid. |
| Versions.PageMeaning | scripts/release_channel_policy.py:45-47 | Of a page exactly what is a row, in order. |
| Versions.RequireFutureStable | scripts/release_channel_policy.py:56-94 | Allowed if and only if there is a published Stable and the tag takes precedence over all of them. |
| Versions.RealStableMeaning | scripts/release_channel_policy.py:60-64 | A Stable counts if it is published, not a draft, and tagged without suffix. |
| Versions.BumpOutranks | scripts/bump_version.py:81-91 | A bump strictly outranks its input, also a prerelease, and is the lowest release of its kind whose core is higher than the input's core. |
| Summary.SortedAscends | scripts/profile_test_suite.py:38-38 | Sorting gives the same values in ascending order. |
| Summary.PercentileEnds | scripts/profile_test_suite.py:35-43 | At fraction 0 and 1 the percentile is the smallest and the largest value. |
| Summary.PercentileMonotone | scripts/profile_test_suite.py:35-43 | A larger fraction never gives a smaller percentile. |
| Summary.PercentileMeaning | scripts/profile_test_suite.py:35-43 | Between ranks k and k + 1 of the values in ascending order the percentile is on the line through the two. |
| Summary.PercentileOfFew | scripts/profile_test_suite.py:36-43 | One value is its own percentile, and no values have 0. |
| Summary.PercentileBetween | scripts/profile_test_suite.py:35-43 | Every percentile lies between the smallest and the largest value. |
| Summary.PercentileOrderIrrelevant | scripts/profile_test_suite.py:38-38 | The order of measurement does not matter. |
| Summary.FrontIsLargest | scripts/profile_test_suite.py:310-318 | No choice of cases sums to more than as many from the front of the ranking. |
| Summary.TopShareIsLargest | scripts/profile_test_suite.py:310-318 | Main result: the top-k share is at least the share of any selection of at most k cases. |
| Summary.TopShareIsHeld | scripts/profile_test_suite.py:310-318 | Some k cases do hold it. |
| Summary.TopShareGrows | scripts/profile_test_suite.py:310-318 | The share never falls as k grows, is at most 1, and is 1 once all cases are taken. |

## Left out

- Floating point: times, rates, measured values and shares are real numbers; rounding to digits is an unknown function, and evenly spaced positions are exact floor divisions.
- Infinite measured values in the projection: they make serialising the payload raise in every candidate alike, so there missing and not finite are one case. The clock model of `Display` keeps infinities and NaN apart.
- Analysis engine, stitch plans, one-Cell family workers: unknown functions of the frame, one value per row, or given results.
- Projection.SelectionParity: frames whose cycles are not what the recorded map's owner wrote, as with a source that two Cells share, where `Projection.SharedSourceShows` gives a failing input. Plans that need the whole-file read record no maps for the frames measured here, because the measurement refuses them.
- T1, T9, T11, T12, T18 and the other candidates: they change what the consumer is promised, or swap in the downsampler that `Downsample` treats on its own.
- Projection.PlotListIsPlot: arrays never hold the Python `None` that the second conversion also tests for, so that branch of it is unused.
- Token text: template source is already split into text and trimmed tags, and an opener into kind, key and alias; regular expressions are not part of the model.
- Display: cycles and phases are integer arrays as the kernel receives them; the derivative kernel itself (rolling mean, gradient) is not modelled: `Display.SegmentsCoverFrame` takes its outputs as given.
- WireRequest.EncodeRequest: the header's Cell count is the number of Cells, which is how the data set's own count is computed; numbers are opaque words of 4 or 8 bytes.
- Icon.WriteIco: drawing and compressing the images; frame sizes are 1 to 256 as in the size list.
- Merge.MergeCycles: a merge of no results at all, which raises, because a selection has at least one Cell; the aggregation formulas and the fields copied from the first result.
- Merge.MergeChargeability: the candidates list, concatenated like the matches, and the filter values listed from it.
- Merge.MergeRate: a selected Cell that no result names, which raises; the comparison of blocks is an unknown function of the blocks in selection order, and the lists of detected blocks and filter values are not carried.
- RowGroups: Parquet storage and timing; a table is a sequence of rows and a group a run of it.
- Recorder: the report of `hierarchy` and the one-expression `_reconcile_root_stages`.
- Preflight: building the stage commands, hashing the input files (an arbitrary function, injective where stated) and the operating system's process results (arbitrary).
- Workers.Process.RunModule: memory, open files, threads and non-app modules that earlier suites leave behind are not reset by the code either; creating the data directory is taken to succeed.
- Workers.RunArchitectureC: module names are places in the sorted list of discovered names, which has no repetitions; output texts and durations.
- Handshake: named-pipe modes, elevation, payload locking and the recovery relay; each system call is one step with any possible answer, and a pipe closed by its server may keep or lose the bytes in it. The fixture's own timeouts are not steps.
- Versions: tag patterns; a tag is the fields its pattern captures. A releases response that is not a list at all.
- Versions.RequireFutureStable: one method for the Beta and the Alpha gate, which differ in their messages.
- Summary.PercentileMonotone: fractions outside 0 to 1, which no caller uses.
- Changelog parsing and formatting: a loop over lines whose result a reading settles; its error for notes outside a section cannot be reached.
- Version files, bundle inventories, subprocesses, network and database access.
