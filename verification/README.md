# Profile log reducer

A model of the profiling-log reducer `parse_profile_log` of the noise
suppression profiling test. It also models the filter that picks the
device's own lines out of the target's output. Both live in
`test/lib_ns/test_ns_profile/test_profile.py`.

The reducer works in four steps:

- **Tag mapping.** It reads `prof(<index>, "<tag>");` declarations from the
  noise-suppression sources and builds a mapping from index to tag. An index
  declared twice stops the run.
- **Frames.** It cuts the device output into frames at `frame N` markers.
  Each `Profile <index>, <ticks>` line stores a timer snapshot under the tag
  of its index, in the frame being filled.
- **Elapsed ticks.** In every finished frame, each `start_X` tag is paired
  with `end_X`. The difference of their snapshots is the elapsed ticks of `X`.
  The elapsed values are summed into the frame total, except for tags ending
  in `init`, whose value is the reported init value.
- **Worst case.** It reports the frame with the highest total, and lists that
  frame's operations.

Input lines reach the model already classified. Source lines are
`Decl(index, tag) | Code`. Device lines are
`FrameMarker(n) | Sample(index, ticks) | Other`. The regular expressions that
classify them are not modelled. Python dicts are insertion-ordered association
lists (`Dicts`): assigning to a present key replaces its value in place, and
assigning to a new key appends it. Their order decides which init value is
"last" and the order of the listings. Every fatal condition except float
overflow (see "Left out") is a `Failure` of a `Result`: the `assert(False)` of a repeated index, the `KeyError` of an
unknown index or a missing `end_` tag, the `ZeroDivisionError` of a frame
share at line 133, the `IndexError` at line 143 when no frame was finished,
and the `TypeError` at line 144 when no frame set an init value.

Modules:

- `Dicts`: the dict operations.
- `Text`: `startswith`, `endswith` and substring `in`.
- `ProfileErrors`: the six fatal outcomes.
- `TagMapping`: lines 63-80.
- `FrameSplit`: lines 87-107.
- `FrameSummary`: lines 114-129.
- `WorstCase`: lines 135-140.
- `ProfileLog`: the whole function and what its reports show.
- `DeviceFilter`: lines 38-43.

Some behaviour of the code is easy to misread:

- **Duplicate index.** Line 76 tests only whether the index is already
  mapped, so a second declaration of an index is fatal even when it carries
  the same tag. See `TagMapping.SameTagTwiceFails`.
- **First marker.** Line 98 skips the append at the first marker, so output
  with markers `frame 0` and `frame 1` around one start/end pair makes
  exactly one frame. See `ProfileLog.OneFrame`.
- **What `init` excludes.** Line 124 keeps an entry out of the total when its
  full tag ends in `init` (`tag.endswith('init')`). Line 148 keeps a key out
  of the worst-case listing when it contains `init` anywhere
  (`"init" in key`).
- **The per-frame report.** Lines 132-133 list every elapsed entry, init
  ones included, each with its share of the frame total. An init-only frame
  therefore has a total of 0 and stops the run.
- **The init value.** Line 111 starts the init value as the empty tuple, and
  line 144 formats it with a width. Output in which no frame has an init
  operation therefore stops the run. So does the smallest complete output,
  one operation measured once (`ProfileLog.OnePairReport`).

The frame still open when the output ends is never finalized, so its samples
are dropped. This may not be what the authors wanted, but the code does it
plainly, and the model keeps it (`FrameSplit.TrailingLinesDiscarded`).

## Model

| member | source | states |
|---|---|---|
| `TagMapping.BuildMapping` | test/lib_ns/test_ns_profile/test_profile.py:73-80 | Fails exactly when some index is declared twice, whatever the two tags; the error names the index, both tags and two declaring lines. On success the keys are distinct, they are the declared indices in declaration order, and each declaration's index looks up its own tag |
| `TagMapping.MappedIffDeclared` | test/lib_ns/test_ns_profile/test_profile.py:76-80 | After a successful build, an index is mapped if and only if some declaration names it |
| `TagMapping.SameTagTwiceFails` | test/lib_ns/test_ns_profile/test_profile.py:76-78 | Declaring index 3 twice with the same tag is still the duplicate-index failure |
| `FrameSplit.SplitFrames` | test/lib_ns/test_ns_profile/test_profile.py:93-107 | Fails exactly when some `Profile` line names an undeclared index, and reports that index. Otherwise there are markers − 1 frames (none without a marker). Frame k holds the samples between markers k+1 and k+2, and frame 0 also holds the samples before the first marker |
| `FrameSplit.FrameContents` | test/lib_ns/test_ns_profile/test_profile.py:103-107 | In each finished frame a tag maps to the value of the last sample for it among the frame's lines, and to nothing if it has none; no tag occurs twice |
| `FrameSplit.FillLookup` | test/lib_ns/test_ns_profile/test_profile.py:107 | Applying samples in order leaves each tag with its last sampled value, and every other tag as it was |
| `FrameSplit.TrailingLinesDiscarded` | test/lib_ns/test_ns_profile/test_profile.py:94-107 | Lines after the last marker with only known indices change nothing: the open frame is never finalized |
| `FrameSplit.MarkerNumberIgnored` | test/lib_ns/test_ns_profile/test_profile.py:96-102 | Replacing the number of any marker leaves the frames unchanged; frames are numbered by position |
| `FrameSplit.ScanAfterFirst` | test/lib_ns/test_ns_profile/test_profile.py:96-102 | Once a marker has been seen, each further marker appends the tags filled since the previous one and starts an empty set, and earlier frames stay as they are |
| `FrameSummary.Reduce` | test/lib_ns/test_ns_profile/test_profile.py:119-127 | Fails exactly when some `start_X` tag lacks `end_X`, naming that end tag and the frame. Otherwise (tags distinct) it gives one elapsed entry per `start_` tag in frame order, a total that sums the entries whose operation does not end in `init`, and an init value that is the last entry ending in `init` |
| `FrameSummary.ElapsedOfPair` | test/lib_ns/test_ns_profile/test_profile.py:120-123 | `start_X` at s and `end_X` at e in a frame give the elapsed entry (X, e − s) |
| `FrameSummary.PairOfElapsed` | test/lib_ns/test_ns_profile/test_profile.py:120-123 | Every elapsed entry (X, c) comes from a `start_X` snapshot s and an `end_X` snapshot e with c = e − s |
| `FrameSummary.NonNegativeWhenOrdered` | test/lib_ns/test_ns_profile/test_profile.py:122-127 | When every `end_X` snapshot is at least its `start_X` snapshot, no elapsed value and no total is negative |
| `FrameSummary.ReduceValues` | test/lib_ns/test_ns_profile/test_profile.py:119-127 | The loop from entry i with accumulator acc ends with acc's entries followed by those of the `start_` tags from i on, acc's total plus theirs, and the last init among them or else acc's |
| `FrameSummary.ReduceErrors` | test/lib_ns/test_ns_profile/test_profile.py:119-122 | The loop from entry i fails exactly when a `start_` tag from i on lacks its end tag, and then it names one such end tag |
| `WorstCase.SelectWorst` | test/lib_ns/test_ns_profile/test_profile.py:135-139 | With no frames it is the `NoFrames` failure. Otherwise the chosen frame's total is at least every frame's total, and every earlier frame's total is strictly smaller |
| `WorstCase.EarliestMaxUnique` | test/lib_ns/test_ns_profile/test_profile.py:135-139 | At most one frame has that property, so the strict `<` fixes the choice |
| `ProfileLog.SummarizeFrom` | test/lib_ns/test_ns_profile/test_profile.py:114-140 | On success there is one summary per frame, each frame reduced and written with its shares and numbered by position. On failure the error is that of the first frame that cannot be reduced or written |
| `ProfileLog.WriteFrameOutcome` | test/lib_ns/test_ns_profile/test_profile.py:119-133 | A frame is written exactly when it closes every `start_` tag and does not have entries with a total of 0; it is then its reduction, and otherwise it fails with the missing end tag or with `ZeroTotal` and its number |
| `ProfileLog.ReportedInit` | test/lib_ns/test_ns_profile/test_profile.py:111-125 | The running init value is unset exactly when no frame has one; otherwise it is the init value of the last frame having one, not necessarily the worst frame |
| `ProfileLog.InitFrom` | test/lib_ns/test_ns_profile/test_profile.py:111-125 | The running init value over frames k on is the starting value when none of them has one, else that of the last of them having one |
| `ProfileLog.ListingMembers` | test/lib_ns/test_ns_profile/test_profile.py:147-148 | An entry is listed exactly when it is an elapsed entry of the worst frame whose operation does not contain `init` |
| `ProfileLog.ListingAppend` | test/lib_ns/test_ns_profile/test_profile.py:147-148 | The listing filters each part of a split alike, so it keeps the entries' order |
| `ProfileLog.ParseProfileLog` | test/lib_ns/test_ns_profile/test_profile.py:62-148 | A successful report has: the mapping of the source; markers − 1 frames, each the reduction of its reference frame with a total that is not 0 when it has entries; an earliest-maximum worst frame with its total; the init value of the last frame having one; and the listing as above |
| `ProfileLog.Succeeds` | test/lib_ns/test_ns_profile/test_profile.py:62-144 | The reducer succeeds if and only if: no index is repeated; every sampled index is declared; at least one frame is finished; every finished frame closes each of its `start_` tags and has a nonzero total when it has entries; and some finished frame has an init value |
| `ProfileLog.DuplicateStops` | test/lib_ns/test_ns_profile/test_profile.py:76-78 | A repeated index stops the run with the duplicate-index error, whatever the output |
| `ProfileLog.UnknownStops` | test/lib_ns/test_ns_profile/test_profile.py:105-107 | With a clean source, a sample of an undeclared index stops the run with the unknown-index error |
| `ProfileLog.MissingEndStops` | test/lib_ns/test_ns_profile/test_profile.py:114-122 | With every index known, when frame k holds an unclosed `start_` tag and every earlier frame can be written, the run stops with the missing-end error of frame k |
| `ProfileLog.ZeroTotalStops` | test/lib_ns/test_ns_profile/test_profile.py:114-133 | With every index known, when frame k has entries and a total of 0 and every earlier frame can be written, the run stops with `ZeroTotal(k)`, the division by zero of the frame's first share |
| `ProfileLog.NoFrameStops` | test/lib_ns/test_ns_profile/test_profile.py:110-143 | With every index known and no finished frame, the run stops with `NoFrames`: indexing `worst_case_frame`, still the empty tuple, raises an IndexError |
| `ProfileLog.InitUnsetStops` | test/lib_ns/test_ns_profile/test_profile.py:111-144 | With at least one finished frame and every frame written, the run stops with `InitUnset` when no frame has an init value: formatting the empty tuple with a width raises a TypeError |
| `ProfileLog.FrameReport` | test/lib_ns/test_ns_profile/test_profile.py:114-129 | Frame k of the report has one entry per `start_` tag of the k-th reference frame, the total over those not ending in `init`, and its last init value |
| `ProfileLog.UncountedNotListed` | test/lib_ns/test_ns_profile/test_profile.py:124-148 | An entry kept out of the total (operation ends in `init`) is also kept out of the listing |
| `ProfileLog.ListingSharesDefined` | test/lib_ns/test_ns_profile/test_profile.py:145-149 | The listing's shares divide by the worst frame's total, which is not 0 whenever anything is listed, since every frame was written first |
| `ProfileLog.OneFrameReport` | test/lib_ns/test_ns_profile/test_profile.py:114-148 | Output with one finished frame that reduces stops with `ZeroTotal(0)` if its share divides by zero, with `InitUnset` if it has no init value, and otherwise reports it as the worst frame with its total, init value and listing |
| `ProfileLog.OnePairReport` | test/lib_ns/test_ns_profile/test_profile.py:62-144 | Declarations `start_X`/`end_X` plus output `frame 0`, both samples, `frame 1` never make a report: when X ends in `init` or took no ticks, frame 0 divides by a zero total; otherwise the init value is never set |
| `ProfileLog.InitInsideNameCountedNotListed` | test/lib_ns/test_ns_profile/test_profile.py:119-148 | A frame of one operation that contains `init` without ending in it (such as `init_x`) counts its ticks in the total, sets no init value, and its entry is not listed |
| `ProfileLog.MappingOfTwo` | test/lib_ns/test_ns_profile/test_profile.py:73-80 | Two declarations of different indices give the mapping of both, in order |
| `ProfileLog.OneFrame` | test/lib_ns/test_ns_profile/test_profile.py:93-107 | Two markers around two samples of different tags make exactly one frame holding both samples, whatever the marker numbers |
| `Text.StartTagEndsWithInit` | test/lib_ns/test_ns_profile/test_profile.py:123-124 | `start_X` ends in `init` exactly when X does, so the init test on the tag is a test on the operation name |
| `DeviceFilter.SpaceRun` | test/lib_ns/test_ns_profile/test_profile.py:41 | The greedy `\s*` match: every character before it is whitespace and the next one is not |
| `DeviceFilter.FilterContents` | test/lib_ns/test_ns_profile/test_profile.py:40-43 | A line is kept exactly when it is the stripped form of an output line whose first non-blank text is `[DEVICE]` |
| `DeviceFilter.FilterAppend` | test/lib_ns/test_ns_profile/test_profile.py:40-43 | Filtering distributes over concatenation, so kept lines stay in output order |
| `DeviceFilter.StripUnchanged` | test/lib_ns/test_ns_profile/test_profile.py:43 | Removal leaves a line unchanged exactly when it holds no `[DEVICE]`, and otherwise shortens it |
| `DeviceFilter.DeviceLineStrip` | test/lib_ns/test_ns_profile/test_profile.py:41-43 | A kept line keeps its leading whitespace; its leading tag and the whitespace after it are removed, and the rest is treated alike |
| `DeviceFilter.StripPlainPrefix` | test/lib_ns/test_ns_profile/test_profile.py:43 | Text without `[` is copied through untouched |
| `DeviceFilter.SinglePass` | test/lib_ns/test_ns_profile/test_profile.py:43 | The substitution makes one pass: a tag split around a whole tag (`[DEV[DEVICE]ICE]`) loses the inner tag and leaves `[DEVICE]` behind |

## Left out

- Reading the source files (the recursive glob, lines 66-70) and the
  `prof(...)` regular expression. The model takes the declarations as a
  sequence in glob order, so the order of the mapping follows whatever order
  the file system gives.
- The `frame`/`Profile` regular expressions: device lines arrive classified.
  The model does not connect `DeviceFilter`'s stripped strings to that
  classification.
- Writing the three report files (lines 83-85, 112-157): fixed-width layout,
  headers and file handling. `Report` holds what the files show, not their
  text.
- Floating point: the values of the percentages, the conversion to
  processor cycles and the MCPS figure (lines 133, 148-157). Only whether a
  percentage divides by zero is modelled. The processor cycles and the MCPS
  figure also multiply and divide by `thread_speed_mhz`, the module constant
  at line 22 (`600 / 5`), which is not 0.
  The `OverflowError` that these conversions raise for an elapsed value or a
  total beyond the float range (about 1.8e308) at lines 133, 149 and 152 is
  not modelled either: the model has no such bound.
- `ProfileLog.Succeeds`: the if-and-only-if holds only for elapsed values
  and totals within the float range; beyond it the source stops with an
  `OverflowError` where the model succeeds.
- `ProfileLog.OneFrameReport`: the outcome it states holds only for values
  within the float range, for the same reason.
- `ProfileLog.OnePairReport`: when the elapsed value y − x is beyond the
  float range, the source stops with an `OverflowError` at line 133 in both
  branches. When X ends in `init`, converting the value comes before the
  division by the zero total, so it replaces the `ZeroTotal(0)` the model
  gives. When X does not, it comes before the `InitUnset` the model gives.
- `ProfileLog.MissingEndStops`: the stop with frame k's missing end tag
  holds only when every elapsed value and total that line 133 converts in
  the earlier frames is within the float range. Otherwise the source stops
  first with an `OverflowError` in an earlier frame.
- `ProfileLog.ZeroTotalStops`: the stop with `ZeroTotal(k)` holds only when
  every elapsed value and total that line 133 converts in the earlier frames,
  and frame k's first elapsed value, is within the float range. Otherwise
  the source stops first with an `OverflowError`.
- `ProfileLog.InitUnsetStops`: the stop with `InitUnset` holds only when
  every elapsed value and total that line 133 converts, in every frame, is
  within the float range. Otherwise the source stops first with an
  `OverflowError`.
- Running the binary on the target and capturing its output (lines 26-54),
  audio generation and the pytest fixtures. These are hardware and I/O.
- The source interleaves the per-frame reduction, the worst-case choice and
  the running init value in one loop (lines 114-140). The model computes them
  as separate folds over the same frames, which only reorders report writes.
- Timer snapshots are Python integers, unbounded as in the model apart from
  the float conversions above. Elapsed
  values can be negative when an end snapshot precedes its start, and the
  model keeps them as they are.
