# midi-spline-interpolation in Dafny

`interpolate.py` joins two MIDI fragments with a generated transition:

- Reduce each fragment's notes to a monophonic melody. The notes are sorted by onset, and only the lowest note of each onset is kept.
- Compute each melody's floor-average note length.
- Fit a spline to the melodies' (onset, pitch) samples. The end fragment is moved behind a gap of `length` bars of 4 × 460 ticks.
- Fill the gap with notes:
  - their length and velocity are blended linearly from the begin fragment's values to the end fragment's;
  - their pitch is read off the spline;
  - consecutive notes are 20 ticks apart.
- Output the begin notes, the transition, and the end notes moved behind the gap.

The model follows that code module by module:

- `Notes` (notes.dfy): the note record, Python's truncating `int()`, and the faults of the program as values: the two divisions by an empty melody, the division by a zero-length gap, and the spline fit given too few samples.
- `Melody` (melody.dfy): `read_midi`'s reduction loop. It is an imperative method over the sorted copy, proved equal to the function `MelodyOf`. The meaning of `MelodyOf` is proved separately.
- `Features` (features.dfy): the accumulation loops of `main` (sums, x and y samples) and the floor average.
- `RealFacts` (realfacts.dfy): the linear blend `Lerp` and the real-arithmetic facts used about it.
- `Transition` (transition.dfy): the `while True` transition loop. It is a method proved equal to the recursive function `Schedule`. Lemmas about `Schedule` cover containment in the gap, blending bounds, spacing, ordering and the note count.
- `Interpolate` (interpolate.dfy): `main` as a whole. It covers the in-place shift of the end notes, the error cases and the three-part layout of the output.

Python floats are modelled as Dafny `real` and `int()` as truncation toward zero. The spline is a function parameter.

## Model

| member | source | states |
|---|---|---|
| `Melody.ReadMelody` | interpolate.py:14-26 | The in-place deletion loop over the onset-sorted copy ends. It leaves exactly `MelodyOf(notes)`. The input array is not modified. |
| `Melody.SortByStart` | interpolate.py:15 | Definition: the stable insertion sort by onset that models `melody.sort(key=...)`. Its properties are the rows `SortByStartCorrect` and `SortByStartStable`. |
| `Melody.SortByStartCorrect` | interpolate.py:15 | The sorted copy is ordered by onset. It is a permutation of the notes. |
| `Melody.SortByStartStable` | interpolate.py:15 | The sort is stable: for every onset, the notes with that onset keep their input order. |
| `Melody.InsertKeepsGroups` | interpolate.py:15 | Inserting a note into the sorted list adds it to its own onset group only, at the front. Every other group is unchanged. |
| `Melody.Reduce` | interpolate.py:19-26 | Definition: the reduction loop as a recursion. Two leading notes with one onset merge into the lower (the later one on a tie); otherwise the first note is kept. Its properties are the `Reduce…` and `Survivor…` rows. |
| `Melody.SurvivorIndex` | interpolate.py:20-24 | Merging a group pairwise keeps the note at an index k that has the minimum pitch of the group. Every later note of the group has a strictly higher pitch. |
| `Melody.SurvivorIsLastLowest` | interpolate.py:20-24 | The kept note of a group is its last lowest-pitched note. `del melody[index]` on equal pitch keeps the later note. |
| `Melody.ReduceStrictlyIncreasing` | interpolate.py:15-26 | On an onset-sorted list, the kept notes have strictly increasing onsets. No two adjacent notes share an onset. |
| `Melody.ReduceSubsequence` | interpolate.py:19-26 | The kept notes are drawn from the list in order. The loop only deletes. |
| `Melody.ReduceCoversStart` | interpolate.py:19-26 | Every onset of the list is the onset of some kept note. |
| `Melody.ReduceKeepsSurvivors` | interpolate.py:19-26 | On an onset-sorted list, each kept note is the survivor of the group of notes with its onset. |
| `Melody.ReduceEmpty` | interpolate.py:19-26 | The reduction removes everything only when the list is empty. |
| `Melody.DeleteStep` | interpolate.py:20-25 | Either `del` on two notes of one onset leaves unchanged what the loop still has to produce. |
| `Melody.KeepStep` | interpolate.py:26 | When the next onset differs, moving the cursor past a note leaves unchanged what the loop still has to produce. |
| `Melody.MelodyShape` | interpolate.py:14-26 | The melody has strictly increasing onsets. It consists of input notes. It is empty exactly when the input is. |
| `Melody.MelodyOfProperties` | interpolate.py:14-28 | The melody has strictly increasing onsets and is a subsequence of the sorted copy. Each kept note is the last lowest-pitched input note of its onset. Every input onset survives. The melody is empty exactly when the input is. |
| `Notes.Trunc` | interpolate.py:83 | `int()` of a float: the result is within one of its argument, toward zero. |
| `Notes.TruncShift` | interpolate.py:87-88 | Truncating a non-negative value plus a whole number of ticks adds those ticks. |
| `Features.AverageDuration` | interpolate.py:58-63 | `avg //= len`: avg × n ≤ total < (avg + 1) × n. |
| `Features.TotalDurationBounds` | interpolate.py:59-60 | Note lengths in [lo, hi] give a sum in [lo × n, hi × n]. |
| `Features.AverageDurationBounds` | interpolate.py:58-63 | The floor-average lies between the shortest and the longest note length. |
| `Features.AverageDurationNonNegative` | interpolate.py:58-73 | Well-formed notes have a non-negative floor-average length. |
| `Features.AccumulateFragment` | interpolate.py:59-72 | The begin loop (lines 59-62, offset 0) and the end loop (lines 68-72, offset `begin_of_end`) are both calls of this method. One pass over a melody returns the sum of its note lengths. It appends every onset, moved by the offset, to the x samples and every pitch to the y samples, in order. |
| `Features.OnsetsIncreasing` | interpolate.py:61 | A melody's onsets strictly increase exactly when its x samples do, whatever offset they are moved by. |
| `Features.SamplePointsIncreasing` | interpolate.py:65-72 | For a positive gap, the x samples of both melodies together strictly increase. The end melody's onsets are moved by `begin_of_end`. This is one of the two conditions `splrep` puts on its samples. |
| `RealFacts.LerpAsWritten` | interpolate.py:82 | `Lerp(t, a, b)` equals the program's `t * b + (1 - t) * a`. |
| `RealFacts.LerpBetween` | interpolate.py:82-83 | A blend with weight in [0, 1] lies between its two ends, whichever end is larger. |
| `RealFacts.LerpExtrapolate` | interpolate.py:82 | A weight of 1 + k overshoots the second end by k times the distance between the ends. |
| `Transition.InGap` | interpolate.py:81-83 | Inside the gap `rel_position` is in [0, 1]. The note length lies between the two averages. The velocity lies between the last begin-melody velocity and the first end-melody velocity. |
| `Transition.PastGap` | interpolate.py:82-85 | If the begin average exceeds the end average by less than the gap, no note fits once the cursor is past the gap end. |
| `Transition.BackwardGap` | interpolate.py:79-85 | For a negative `length` the program's test ends the loop at once. |
| `Transition.FirstFit` | interpolate.py:79-85 | At the start of the gap the corrected test and the program's test agree. Both let a first note through exactly when `end_of_begin` plus the begin average is at most `begin_of_end`. |
| `Transition.GuardsAgree` | interpolate.py:84-85 | Wherever the program's loop can be, the corrected exit test and the program's own test decide alike, given that bound on the averages. |
| `Transition.GuardsDifferOnlyWhenStuck` | interpolate.py:79-88 | Once a first note fits, the corrected test and the program's test disagree at a reachable cursor only when the end average is 0 and the begin average equals the gap. On that input every cursor passes the program's test, so its loop never ends. |
| `Transition.LengthFillsGap` | interpolate.py:82-85 | With an end average of 0 and a begin average equal to the gap, `position + note_length` is exactly `begin_of_end` at every cursor. |
| `Transition.StuckPastGapEnd` | interpolate.py:84-88 | A gap whose program loop never ends. It has a gap of 1840 ticks, a begin average of 1840 and an end average of 0. The cursor reaches the gap end plus 20 and stays there. The program's test keeps accepting notes; the corrected test rejects them. |
| `Transition.Step` | interpolate.py:79-88 | A note that fits implies a forward gap and a non-negative length. The loop measure drops. |
| `Transition.Emit` | interpolate.py:86-87 | Definition: the note appended at the cursor, with the truncated cursor, truncated release, truncated spline pitch and blended velocity. Its properties are the row `EmitFits`. |
| `Transition.EmitFits` | interpolate.py:86-87 | A note that fits starts at the truncated cursor, is well formed and ends inside the gap. Its length and velocity lie between the fragments' values. |
| `Transition.Schedule` | interpolate.py:79-88 | Definition: the notes the loop appends from a cursor, under the corrected test `Fits`. Its properties are the `Schedule…` rows and its method is `Transition.Transition`. |
| `Transition.ScheduleCons` | interpolate.py:80-88 | One turn of the loop: emit the note, then continue from `position + note_length + 20`, which is never behind. |
| `Transition.ScheduleWithinGap` | interpolate.py:79-88 | Every transition note starts at or after the cursor and after `end_of_begin`. It ends by `begin_of_end`. Its length and velocity are within the blend bounds. |
| `Transition.ScheduleSpacing` | interpolate.py:87-88 | The first transition note starts at the cursor. Each later one starts 20 ticks after the previous one ends. |
| `Transition.SpacedOrdered` | interpolate.py:87-88 | Well-formed notes spaced like that never overlap. |
| `Transition.ScheduleOrdered` | interpolate.py:79-88 | Any later transition note starts at least 20 ticks after an earlier one ends. Onsets strictly increase. |
| `Transition.ScheduleCount` | interpolate.py:79-88 | n transition notes need at least 20 × (n − 1) ticks of gap. |
| `Transition.BackwardGapEmpty` | interpolate.py:79-85 | A gap of negative length yields no transition notes. |
| `Transition.Transition` | interpolate.py:79-88 | The `while True` loop terminates and appends exactly `Schedule(gap, curve, f, end_of_begin)`. |
| `Interpolate.ShiftedProperties` | interpolate.py:91-93 | Moving notes keeps pitch, velocity and length, and adds the offset to the onset. Moving back restores them. A non-negative move keeps notes well formed. |
| `Interpolate.ShiftInPlace` | interpolate.py:91-93 | The loop moves every end note's start and end by `begin_of_end`, in place. |
| `Interpolate.MelodyWellFormed` | interpolate.py:14-26 | The melody of well-formed notes is well formed. |
| `Interpolate.SplineFitFailsExactly` | interpolate.py:79-86 | The first spline evaluation fails (cubic `splrep` at line 46 needs more than three samples) exactly when the loop's first test passes, i.e. the begin average fits into the gap, and the two melodies have fewer than four notes together. A gap of negative length never evaluates the spline. |
| `Interpolate.Interpolation` | interpolate.py:49-94 | Definition: the output of `main`, or the first fault in program order. Its properties are the rows `InterpolationOk`, `InterpolationErrors` and `InterpolationLayout`, and its method is `Interpolate.Interpolate`. |
| `Interpolate.InterpolationOk` | interpolate.py:49-94 | Unfolds `Interpolation` past its first three faults and adds that the gap is `Schedulable`. Once both melodies have notes and `length != 0`, the output is either the too-few-samples fault or the begin notes, then the transition over the gap `end_of_begin`…`end_of_begin + length*1840`, then the shifted end notes. The fault occurs exactly when `SplineFitFails` holds. The gap satisfies what the loop needs. |
| `Interpolate.InterpolationErrors` | interpolate.py:58-86 | `main` stops before writing exactly when a fragment has no notes, `length == 0`, or the begin average fits into the gap while the melodies have fewer than four notes together. The faults are reported in program order: the division at line 63, then line 73, then line 81, then the spline fit reached from line 86. |
| `Interpolate.InterpolationLayout` | interpolate.py:76-94 | A successful output has three parts. First the begin notes verbatim. Then transition notes, each inside the gap with blended length and velocity and 20 ticks after its predecessor. Then the end notes moved by `begin_of_end`. A negative `length` gives no transition notes. |
| `Interpolate.SplineSamplesIncreasing` | interpolate.py:55-73 | For `length > 0` the spline is fitted to strictly increasing x samples. |
| `Interpolate.Interpolate` | interpolate.py:49-94 | `main` on the two parsed note lists returns `Interpolation` of the original lists. On success the last part of the output is the end array as moved in place. On a fault the end array is unchanged: every fault, the spline's included, occurs before the shift. |

## Findings

| source | as written | input that shows it | evidently intended | confidence | as-written member | corrected member |
|---|---|---|---|---|---|---|
| interpolate.py:84-85 | The loop ends only when `position + note_length > begin_of_end`. Past the gap end the blend weight exceeds 1 and the extrapolated length can be negative. | `length = 1`; begin fragment of one note lasting 1840 ticks; end fragment of at least three notes of length 0 at distinct onsets, so that the spline has the four samples it needs and does not fail first. The first note fills the gap exactly. The cursor moves to the gap end + 20, where `note_length` is −20. The note "fits", and the cursor stays at the gap end + 20 forever. | The transition ends at the gap end: no note is placed once the cursor has passed `begin_of_end`. | not executed | `Transition.StuckPastGapEnd` | `Transition.Schedule` |

`Transition.Schedule` uses the test `Transition.Fits`, which adds "the cursor has not passed `begin_of_end`" to the program's test. `Transition.Step` proves that the loop then always terminates. `Transition.GuardsAgree` proves that the two tests agree whenever the begin average exceeds the end average by less than the gap. `Transition.GuardsDifferOnlyWhenStuck` sharpens this. Once a first note fits, the tests can disagree at a reachable cursor only when the end average is 0 and the begin average equals the gap. On that input every cursor passes the program's test, with the note ending exactly at the gap end, so the program's loop never stops. When no first note fits, both tests stop at once (`Transition.FirstFit`). So `Schedule` is the program's output on every input where the program's loop ends.

## Left out

- Reading and writing MIDI files through miditoolkit (interpolate.py:9-13, 30-41, 96) is not modelled. Parsing and writing are foreign library calls. The parsed note lists are the method's array arguments, and the output is its result.
- The writer can still reject a result that `Interpolate.Interpolation` returns as `Ok`, so `main` can fail after the model's last fault. For example, line 87 does not clamp the spline's pitch to the MIDI range 0..127, and a cubic through the samples can overshoot far outside it. What the writer accepts is library behaviour and is not modelled.
- The spline `f` (interpolate.py:44-47, scipy `splrep`/`splev`) is not modelled. It is foreign numeric code. It is a function parameter of type `(seq<int>, seq<int>, real) -> real`. `Interpolate.SplineSamplesIncreasing` states one of `splrep`'s two conditions on its samples (strictly increasing x). The other, more than three samples, is modelled as the fault `TooFewSamples` (`Interpolate.SplineFitFailsExactly`). Other failures of the fit are not modelled.
- The command line (interpolate.py:100-110) is not modelled. It only parses arguments.
- generate_dataset.py is not part of this model. It is a batch driver, and it imports a `MidiInterpolator` class that interpolate.py does not define.
- Floating point is not modelled: positions, weights and lengths are exact reals. The rounding of Python floats can move a truncated tick by one, or add or drop one transition note at the gap end.
- `Interpolate.Interpolation`: requires well-formed notes (0 ≤ start ≤ end). MIDI ticks are like that. Negative ticks would make `int()` truncate upward and break the in-gap bounds.
- `Transition.Schedule` and `Transition.Transition` use the corrected exit test (see Findings). Where the program's test lets the cursor run past the gap end, the model stops. By `Transition.GuardsDifferOnlyWhenStuck`, that happens only on an input where the program's loop never ends: an end average of 0 and a begin average equal to the gap.
- `Melody.ReadMelody` works on a sequence copy of the note list. Python's `list.sort` is modelled by the stable insertion sort `SortByStart`, which gives the same result as any stable sort by onset. `del` is reassignment of that local sequence.
- Aliasing: `end_melody` holds the same Note objects as `end_notes`, so the in-place shift also moves the melody's notes. The melody is not read after the shift, so the model keeps melodies as values. The output shares Note objects with the inputs. The model states this as the equality of the output's last part with the end array after the shift.
- `int(...)` around values that are already integers (note ticks, pitches, the spline's truncated value) is the identity and is not written out.
