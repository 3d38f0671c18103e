# VirusRecom recombination scan engine in Dafny

This project models the recombination scan engine of VirusRecom, which lives in the script body of `src/main.py`. VirusRecom compares a query sequence, site by site, against a set of parental lineages in a multiple alignment. The model turns each stage of the script into pure functions over an abstract aligned matrix and exact `real` scores:

1. **Column filters** (`Alignment`): drop every column that holds a gap when gaps are not analysed, and keep only polymorphic columns in polymorphic-site mode.
2. **Weighted information content** (`Scoring`): for each lineage and column, WIC is `lineage_match_ratio * IC * query_nt_ratio`, taken against the query's consensus symbol. The consensus is the first most frequent symbol.
3. **Sliding windows** (`Windows`):
   - Window `n` covers rows `[S*n, min(S*n+W, L))`.
   - At most `L / S` windows are taken, stopping after the first window that reaches the last row.
   - Each window is labelled by its center row.
4. **Candidate selection** (`Candidates`): a window is a candidate for a lineage when that lineage's mean is the largest of all lineages there and reaches the share `cp` of `maxMic`.
5. **Greedy region merge with cursor backtracking** (`Merge`):
   - The scan is a recursive stepper on the cursor.
   - A reference scan re-expresses the per-pass decision: emit the last valid trial that fits the cap, and stop when it is the last valid trial of all. It reuses the trials of `CursorTrials` and the shape of `StepAt`/`MergeFrom`, and is proved equal to the script's scan for the sorted candidate lists that selection produces.
6. **Parent assignment** (`Parents`):
   - Lineages without regions are dropped.
   - The major parent is the first lineage of largest coverage.
   - Every other lineage is reported region by region against the major parent.
7. **The whole scan** (`Engine`), composing the stages, with its error outcomes.

Lineages are identified by their position in the lineage list; the script's dictionaries iterate in that order. `Results` holds the `Option`/`Result` types and the error kinds, and `Seqs` holds the shared sequence helpers.

Where the script raises an exception, the model returns an error:
- `NoRows`: polymorphic-site mode compares against the first row of an empty matrix.
- `EmptyQueryGroup`: `max` over an empty query column.
- `EmptyLineageGroup`: a division by the size of an empty lineage group.
- `NoRegions`: `max` over an empty region dictionary.

Some inputs are opaque because the model cannot compute them:
- The information content of a column is an opaque function `ic`.
- `maxMic` is 2 when gaps are dropped. Otherwise it is a positive parameter standing for `log2(5)`.
- The Mann-Whitney comparison is an opaque function `test` returning either a p-value or a failure.

## Behaviour of the script kept as written

- **Window count.** The script takes at most `int(L/S)` windows (`src/main.py:491`), so the last rows can belong to no window. `Windows.ShortScanExample` shows this: 10 rows, width 3 and step 4 give only the windows `[0,3)` and `[4,7)`.
- **Region sums.** The script sums region scores over the half-open rows `[left, right)` but counts `right - left + 1` rows, both for the share test (`src/main.py:652-666`) and for the length cap (`src/main.py:696`, `705`, `716`).
  - The model keeps this off-by-one.
  - Its consequence is proved as `Merge.NoRegionAtFullThreshold` and `Engine.FullThresholdFindsNothing`: with scores bounded by `maxMic`, a threshold `cp = 1` never yields a region.
  - The reported region mean stays strictly below `maxMic` (`Parents.RegionMeanBelowBound`).
- **Failed tests.** When the rank-sum test fails, the script reports p = 1 and leaves the region's mean WIC out of that report line (`src/main.py:829-831`).
- **Empty groups.** An empty query group makes `max` fail, and an empty lineage group makes a division by zero (`src/main.py:395-421`). The model returns an error in both cases.

## Model

| member | source | states |
|---|---|---|
| `Seqs.Count` | src/main.py:399 | the number of occurrences is at most the length, and positive exactly when the symbol occurs |
| `Seqs.CountIsMultiplicity` | src/main.py:399 | the count of a symbol is its multiplicity in the multiset of the column's symbols |
| `Seqs.FirstArgMax` | src/main.py:412 | `max(..., key=...)` picks an index whose key is maximal, and every earlier key is strictly smaller |
| `Seqs.MaxOf` | src/main.py:614 | the maximum is one of the values and bounds all of them |
| `Alignment.DropGapColumns` | src/main.py:318-324 | the survivors are exactly the gap-free columns in original order, with their site labels; every surviving column is gap-free |
| `Alignment.KeepPolymorphic` | src/main.py:343-347 | fails exactly when there is no row; otherwise the survivors are exactly the columns where some row differs from the first row, in order |
| `Alignment.Prepare` | src/main.py:313-347 | fails exactly in polymorphic mode without rows; otherwise keeps every row and identifier, keeps only original site labels, and every surviving column is gap-free when gaps are dropped and polymorphic in polymorphic mode; the survivors are exactly the columns passing both filters, in original order, each with its site label; with both filters off the matrix is unchanged |
| `Alignment.ComposeColumns` | src/main.py:318-347 | filtering the columns by one test and then the survivors by a second keeps exactly the columns passing both, in order; this is how the gap filter and the polymorphic filter combine |
| `Scoring.ContainsAt` | src/main.py:367-379 | containment holds exactly when the marker is a prefix of the identifier from some position on |
| `Scoring.Group` | src/main.py:367-379 | a marker's group is exactly the rows whose identifier contains the marker, in increasing row order |
| `Scoring.Consensus` | src/main.py:408-412 | the consensus symbol occurs in the query, has maximal count, and every earlier row's symbol has a strictly smaller count |
| `Scoring.QueryRatio` | src/main.py:414 | the consensus share of the query lies in (0, 1] |
| `Scoring.MatchRatio` | src/main.py:417 | the lineage share lies in [0, 1]; it is 0 exactly when the symbol is absent, and 1 exactly when every row carries it |
| `Scoring.Weigh` | src/main.py:419 | the weighted product lies in [0, IC] whenever IC is non-negative |
| `Scoring.Wic` | src/main.py:395-421 | fails exactly on an empty query group or lineage group, with the matching error; otherwise 0 <= WIC <= IC |
| `Scoring.SingleQueryIsConsensus` | src/main.py:395-401 | a single query row is its own consensus with ratio 1, so both branches of the script agree |
| `Scoring.WicFullIff` | src/main.py:395-421 | with IC > 0, WIC equals IC exactly when every query row and every lineage row carry the same symbol |
| `Scoring.WicZeroIff` | src/main.py:412-419 | with IC > 0, WIC is 0 exactly when the lineage never carries the query's consensus symbol |
| `Scoring.ScoreLineage` | src/main.py:387-421 | one lineage's column scores: fails exactly when there is a column and the query or lineage group is empty; otherwise each score is that column's WIC |
| `Scoring.ScoreAll` | src/main.py:375-425 | scores every lineage in list order; fails exactly when some group is empty and there is a column |
| `Scoring.ScoreSites` | src/main.py:365-425 | the site table keeps the cleaned site labels and has one row per lineage and one score per site; the score of lineage `l` at column `j` is the WIC of the query group's and that lineage group's symbols there; its failure condition is as for `ScoreAll` |
| `Scoring.ScoreSitesBounded` | src/main.py:393-421 | with IC bounded by `maxMic`, every WIC in the table lies in [0, maxMic] |
| `Windows.WindowsFrom` | src/main.py:506-530 | windows from index `n` on have closed-form bounds, every end but the last is below `L`, and the scan stops at `L / S` windows or at the first end equal to `L` |
| `Windows.Windows` | src/main.py:491-530 | at most `L / S` windows, window `n` spans `[S*n, min(S*n+W, L))`; only the last can end at `L`, and it does whenever fewer than `L / S` windows are taken; every center row is below `L` |
| `Windows.ShortScanExample` | src/main.py:491-530 | 10 rows, width 3 and step 4 give exactly the windows `[0,3)` and `[4,7)`, so the last window need not reach the last row |
| `Windows.CentersSorted` | src/main.py:523 | window center rows never decrease along the scan |
| `Windows.Mean` | src/main.py:514-517 | the mean times the window width is the sum of the window's scores, and a one-row window's mean is that row's score |
| `Windows.MeanOfConstant` | src/main.py:514-517 | a window whose scores all equal `v` has mean `v` |
| `Windows.MeanBounds` | src/main.py:514-517 | a window mean of scores in [0, b] lies in [0, b] |
| `Windows.WindowMeans` | src/main.py:499-533 | one mean per lineage and window; each is the sum of the lineage's scores over the window's rows divided by the number of those rows |
| `Windows.WindowMeansBounded` | src/main.py:514-517 | with scores in [0, b], every window mean lies in [0, b] |
| `Windows.CenterLabels` | src/main.py:523-527 | one site label per window, and each is the label of a row that window covers |
| `Candidates.Dominant` | src/main.py:614-615 | a lineage that dominates a window has a mean there at least as large as every lineage's |
| `Candidates.DominantIff` | src/main.py:614-615 | a lineage dominates a window exactly when no lineage has a larger mean there and its share reaches `cp`; tied lineages all dominate |
| `Candidates.DominantWindows` | src/main.py:606-620 | the selected windows are exactly the dominated ones, in increasing order |
| `Candidates.Candidates` | src/main.py:604-622 | candidates are the center rows of the dominated windows in window order; they never decrease and are rows of the table |
| `Candidates.AllCandidates` | src/main.py:596-622 | one candidate list per lineage |
| `Merge.TrialRight` | src/main.py:650 | the right end of a trial never exceeds `L` |
| `Merge.TrialLeft` | src/main.py:649 | the left end never passes the center; when positive, it is `center - S/2` rounded down |
| `Merge.TrialLeftIsFloor` | src/main.py:649 | truncating `center - S/2` and clamping at 0 equals flooring and clamping |
| `Merge.BestOther` | src/main.py:656-662 | the running best of the other lineages is non-negative, bounds every other lineage's sum, and is 0 or one of those sums |
| `Merge.ValidTrial` | src/main.py:656-666 | a valid trial has a nonempty range on which the lineage's sum is positive |
| `Merge.ValidTrialIff` | src/main.py:654-672 | a trial is valid exactly when the range is nonempty and the lineage's sum is positive, beats every other lineage's sum over the same rows, and reaches `cp` per counted row |
| `Merge.TrialsFrom` | src/main.py:646-674 | at most one trial per candidate from `i` on; the recorded trials are exactly the passing ones, in increasing candidate number, each with the cursor's left end and its candidate's right end |
| `Merge.CursorTrials` | src/main.py:646-674 | a cursor records at most one trial per candidate from the cursor on |
| `Merge.CursorTrialsValid` | src/main.py:646-674 | a cursor's trials all start at the cursor's left end, end at their candidate's right end and pass the trial test; every candidate from the cursor on whose trial passes is among them |
| `Merge.FirstOverCap` | src/main.py:713-719 | the first trial over the cap is over it, and all trials before it fit |
| `Merge.Decide` | src/main.py:684-733 | a non-stopping pass moves the cursor strictly forward, within the candidates; at most one region is emitted, and it is a recorded trial that fits the cap |
| `Merge.FittingTrialsAccepted` | src/main.py:664-672 | every recorded trial that fits the cap is a dominating region inside the table |
| `Merge.StepAt` | src/main.py:640-733 | at the last candidate the loop stops without emitting; otherwise a pass emits at most one region, which is accepted, and advances the cursor strictly within `1..frag_count` |
| `Merge.MergeFrom` | src/main.py:640-735 | the loop terminates, with at most one region per remaining candidate |
| `Merge.MergeFromAccepted` | src/main.py:640-735 | every region the loop emits dominates its rows, fits the cap and lies in `0 <= left < right <= L` |
| `Merge.Passes` | src/main.py:640-733 | the loop makes at most `frag_count - cursor + 1` passes |
| `Merge.Merge` | src/main.py:628-735 | a lineage with exactly one candidate gets no region; fewer regions than candidates; every region is accepted and inside the table |
| `Merge.TrialRightMonotone` | src/main.py:650 | a later candidate never gives a smaller right end |
| `Merge.TrialSpansGrow` | src/main.py:649-652 | trials sharing a left end over nondecreasing right ends have nondecreasing spans |
| `Merge.SpansSorted` | src/main.py:649-652 | with sorted candidates, the spans of a cursor's valid trials never decrease |
| `Merge.FittingIsPrefix` | src/main.py:713-719 | with nondecreasing spans, the trials that fit are exactly those before the first one over the cap |
| `Merge.DecideIsReference` | src/main.py:692-733 | with nondecreasing spans, the script's three-way branch is the reference pass |
| `Merge.StepIsReference` | src/main.py:640-733 | with sorted candidates, each pass of the loop equals the reference pass |
| `Merge.MergeIsReference` | src/main.py:640-735 | with sorted candidates, the loop emits exactly what the reference scan emits |
| `Merge.FurthestFitEndsScan` | src/main.py:704-710 | once the furthest valid trial fits the cap, it is the only region emitted from that cursor on |
| `Merge.NoDominanceNoRegion` | src/main.py:664-735 | when no range dominates, the loop emits nothing |
| `Merge.NothingDominatesAtFullThreshold` | src/main.py:652-666 | with scores bounded by `maxMic` and `cp >= 1`, no range of rows dominates |
| `Merge.ShareBelowOne` | src/main.py:652-666 | counting one row more than is summed keeps the share of a bounded lineage below 1 |
| `Merge.NoRegionAtFullThreshold` | src/main.py:652-666 | with scores bounded by `maxMic` and `cp >= 1`, the merge emits no region |
| `Parents.Coverage` | src/main.py:750-757 | a single region covers `right - left` rows |
| `Parents.CoverageAppend` | src/main.py:750-757 | coverage adds up over concatenated region lists, so it is the sum of the regions' `right - left` |
| `Parents.CoverageAtLeastCount` | src/main.py:750-757 | a lineage's coverage is at least its number of regions |
| `Parents.WithRegions` | src/main.py:736-740 | the kept lineages are exactly those with at least one region, in lineage order, each with its regions |
| `Parents.MajorParent` | src/main.py:759 | fails exactly when no lineage is kept; otherwise picks the first kept lineage of maximal coverage |
| `Parents.Others` | src/main.py:783-785 | the other parents are exactly the kept lineages other than the major parent |
| `Parents.OthersRemoveOnlyMajor` | src/main.py:783-787 | removing the major parent removes only its own entry and keeps the order of the rest |
| `Parents.RegionMean` | src/main.py:800 | the reported mean of a one-row region is half its score, because the script divides by one row more than it sums |
| `Parents.RegionMeanOfConstant` | src/main.py:800 | for a region whose scores all equal `v`, the reported mean times the counted rows is `v` times the summed rows |
| `Parents.RegionMeanBelowBound` | src/main.py:800 | a region's reported mean WIC lies in [0, maxMic) |
| `Parents.Report` | src/main.py:793-831 | the left label is that of row `left`; the right label is that of row `right`, or of the last row at the table's end; mean and p-value are shown when the test succeeds, and p = 1 without a mean when it fails |
| `Parents.Reports` | src/main.py:782-831 | one report line per region of each other parent, in order |
| `Parents.SignificantIffShownBelow` | src/main.py:779-831 | the significance flag is raised exactly when some shown p-value is below 0.05 |
| `Parents.MajorIsFirstLargest` | src/main.py:743-759 | the first maximal kept entry is the first lineage of largest coverage among all lineages |
| `Parents.Major` | src/main.py:736-759 | fails with `NoRegions` exactly when no lineage has a region; otherwise the major parent has regions and is the first lineage of largest coverage |
| `Parents.OthersOfAll` | src/main.py:783-787 | a lineage is an other parent exactly when it has regions and is not the major parent |
| `Parents.AssignWith` | src/main.py:761-831 | for a given major parent: its mean is the sum of its scores over all rows divided by the row count; the other parents are exactly the kept lineages other than the major parent, in lineage order; the report lines are those of `Parents.Reports`; the weak-major flag is `mean / maxMic < 0.5`; the significance flag is raised exactly when some shown p-value is below 0.05 |
| `Parents.Assign` | src/main.py:736-831 | the full assignment: error exactly without regions; the major parent as above; the rest is what `AssignWith` gives for it: the other parents, the weak-major flag (`src/main.py:868`) as `mean / maxMic < 0.5`, and the significance flag as above |
| `Engine.MaxMic` | src/main.py:313-324 | `maxMic` is positive, and 2 when gaps are dropped |
| `Engine.LineageRegions` | src/main.py:628-735 | a lineage without candidates gets no region; every region is accepted for that lineage and inside the table |
| `Engine.AllRegions` | src/main.py:596-735 | one region list per lineage; every region is accepted and inside the table |
| `Engine.Score` | src/main.py:313-425 | the cleaned and scored table: fails exactly when cleaning fails or scoring the cleaned matrix fails, with `NoRows` in polymorphic mode without rows and an empty table without lineages; otherwise the table `ScoreSites` gives for the matrix `Prepare` gives |
| `Engine.Analyse` | src/main.py:596-831 | a scored table's run: fails, with `NoRegions`, exactly when no lineage has a region; otherwise its regions are the merges of every lineage's candidates, its outcome is the parent assignment on them, and the major parent and the other parents are as for `Parents.Assign` |
| `Engine.Detect` | src/main.py:313-831 | a scoring failure is the run's error, and otherwise the run is the analysis of the scored table; it fails with `NoRows` in polymorphic mode without rows and with `NoRegions` without lineages; a successful run's regions are all accepted, its major parent has regions and the largest coverage, and its other parents are exactly the remaining lineages with regions |
| `Engine.DetectSucceedsIff` | src/main.py:313-831 | a run succeeds exactly when scoring succeeds and some lineage of the scored table has a region; a scoring failure is the run's error, and when scoring succeeds but no lineage has a region it fails with `NoRegions` (line 759) |
| `Engine.DetectScores` | src/main.py:313-425 | a successful run's table is the scoring of the cleaned matrix |
| `Engine.DetectRegions` | src/main.py:596-831 | a successful run's regions are the merges of every lineage's candidates, and its outcome is the parent assignment on those regions |
| `Engine.RegionsFollowReference` | src/main.py:596-735 | in the full scan, every lineage's regions are what the reference merge emits, because candidates come sorted |
| `Engine.BoundedTableHasNoRegions` | src/main.py:596-735 | with every score in [0, maxMic] and `cp >= 1`, no lineage gets a region |
| `Engine.FullThresholdFindsNothing` | src/main.py:652-759 | with IC bounded by `maxMic` and `cp >= 1`, every scan ends in an error: no region is ever found |

## Left out

- Argument parsing, flag validation and the timing output (`src/main.py:77-207`) are CLI plumbing. The script validates only the `-g` and `-m` flags (`src/main.py:201-207`).
- `Engine.Config.Valid` requires a positive window width and step, so it excludes inputs the script accepts. A step of 0 raises a division by zero at `src/main.py:491`. A width of 0 gives empty windows, whose `np.mean` is NaN.
- External alignment, FASTA reading, output directories and the records of deleted columns (`src/main.py:224-274`, `309`, `328-362`) are I/O. The model starts from an aligned matrix with integer site labels.
- The entropy functions `calEnt` and `calEnt_gap` are not part of this model. They use base-2 logarithms over floats, so the information content is the opaque function `ic`. Its bound `0 <= ic <= maxMic` is a hypothesis of the lemmas that need it. `log2(5)` is the parameter `gapMaxMic`.
- The Mann-Whitney U test and its p-values are foreign numerics, so `Parents.Test` is an opaque outcome. The same goes for the breakpoint scan built on it (`src/main.py:890-949`).
- Excel tables, plots and the report file's text (`src/main.py:430-479`, `538-590`, `849-885`, `953-1012`) are presentation. Only the weak-major flag and the significance flag are modelled.
- Floating point: scores are exact reals. This idealises the exact equality test against the window maximum (`src/main.py:614`) and every sum and mean.
- Identifier matching uses plain substring containment. pandas' `str.contains` treats the marker as a regular expression, which matters only for markers holding regex metacharacters.
- Lineage names are assumed distinct. The script keys its dictionaries by name, so duplicate names would collapse into one entry.
- The figure code runs before the window scan, and it raises in some cases the model carries on through, returning `NoRegions` or a run:
  - with no lineage or with no column left after filtering, `max(site_list)` fails on an empty list (`src/main.py:439`);
  - with exactly one lineage, `plt.subplots` returns a single axis, so `ax[n]` fails (`src/main.py:454`).
- `Merge.MergeIsReference` relates the loop to the reference scan only for sorted candidate lists. Those are the only lists candidate selection produces (`Candidates.Candidates`).
