# Drum transcriber core, modelled in Dafny

This project models the three parts of the drum transcriber with statable behaviour, and proves properties about them.

- **Segmenter** (`util.py`): cutting a waveform into one frame per detected onset, and bringing each frame's samples to one second by symmetric trimming or zero padding (module `Segments`, `segments.dfy`).
- **Note track generator** (`midigen.py`): the Standard MIDI File track that `create_midi` builds. It holds one Set Tempo meta event (FF 51 03), then a note_on/note_off pair per hit time. Each event's delta-time counts ticks since the previous event, as the track chunk rules of the Standard MIDI File 1.0 specification define (module `MidiGen`, `midigen.dfy`).
- **Labelling and export** (`frontend.py`): the first-maximum argmax label of every probability row, its confidence, and the split of hit times into one track for each of the six exported labels (module `Frontend`, `frontend.dfy`).

`results.dfy` holds the `Option`/`Result` types. A Python exception raised by the source becomes an `Err`.

Modelling choices:
- The onset detector is external. Its result, the list of backtracked onset positions in samples, is a parameter of `OnsetFrames` and `OnsetSamples`.
- Samples, hit times and probabilities are Dafny `real`s.
- Slicing a waveform with a supplied frame follows Python/numpy slicing rules (`PySlice`): negative bounds count from the end, and bounds are clamped.
- `round(time * ticks_per_second)` is Python's `round` on the exact value: nearest integer, ties to even. `ticks_per_beat` is 480, which is what a new mido `MidiFile` has.
- `create_midi` can fail in three ways. A tempo outside the three-byte Set Tempo range `0..0xFFFFFF` is rejected when the meta message is built (midigen.py:9). A tempo of 0 fails at the division on line 12. These two are the `Err` results of `MidiSpec` and `CreateMidi`. The third is `midi.save` on line 23: mido's writer refuses a message with a negative delta-time. The model does not save, so `CreateMidi` returns `Ok` for such a track. `Writable` states the condition the writer checks, and `NoteTrackWritableIff` gives, for every input, exactly when the track built on lines 16-21 meets it.
- The configured `index` mapping is a sequence of labels: key `k` is position `k`. `config.py` is not part of this model.
- The predictions table is a class (`Frontend.PredictionTable`) because frontend.py adds its prediction and confidence columns in place.
- The per-label loop is a method (`Frontend.ExportTracks`) that returns each label's hit times and the MIDI file built from them.

Three places where the code does something other than what its names and docstrings suggest. The model follows the code in each:
- **Normalised length.** `normalize_duration` documents its result as trimmed or padded to the target length. When the length difference is odd, the code's cut result is one sample longer than the target and its padded result one sample shorter (`NormalizeExactIffEven`).
- **No onsets.** With no onset, `to_onset_frames` reads `onset_backtracks[-1]` of an empty array and raises. The model gives `Err(NoOnsets)` rather than an empty frame list.
- **Ordering.** `create_midi` never checks that hit times ascend. A time earlier than the one before it gives a negative note_on delta (`OutOfOrderGivesNegativeDelta`, `TickBelowLastGivesNegativeDelta`), which the save on line 23 then refuses.

## Model

| member | source | states |
|---|---|---|
| `Segments.PySlice` | util.py:47 | `samples[s:e]` with Python slicing: always some contiguous slice, no longer than the input, and exactly `s[lo..hi]` for in-range bounds |
| `Segments.NormalizeDuration` | util.py:8-22 | the target is `sr * length`; the result is `target + excess % 2` samples long when cut and `target - deficit % 2` when padded, so always within one sample of the target |
| `Segments.NormalizeTrimIsMiddle` | util.py:17-19 | when longer than the target, the result is `samples[t..len-t]` with `t = (len - target) // 2`: the same count is dropped at each end, and the rest is kept in order |
| `Segments.NormalizePadSurrounds` | util.py:20-22 | when not longer, the result is `a` zeros, the input unchanged, then `a` zeros, with `a = (target - len) // 2` |
| `Segments.NormalizeExactIffEven` | util.py:15-22 | the length equals the target if and only if the length difference is even |
| `Segments.NormalizeKeepsExact` | util.py:20-22 | an input already at the target length is returned unchanged |
| `Segments.NormalizeIdempotent` | util.py:15-22 | normalising an already normalised slice changes nothing |
| `Segments.LastEnd` | util.py:32 | the appended end point is `min(o[n-1] + sr, len)`: it is at most both, and equal to one of them |
| `Segments.Consecutive` | util.py:33 | `zip(b[:-1], b[1:])` gives `len(b) - 1` pairs, and pair i is `(b[i], b[i+1])` |
| `Segments.OnsetFrames` | util.py:25-34 | it fails exactly when there is no onset; otherwise one frame per onset, frame i is `(o[i], o[i+1])`, and the last is `(o[n-1], min(o[n-1] + sr, len))` |
| `Segments.FramesChain` | util.py:32-33 | each frame ends where the next one begins |
| `Segments.FramesWellFormed` | util.py:31-34 | for ascending in-bounds onsets, every frame is a valid slice `0 <= begin <= end <= len`; the first begins at the first onset, and the last ends at the capped end |
| `Segments.Segment` | util.py:47 | one segment is within one sample of `sr` long; for an in-range frame it is exactly `normalize_duration(samples[s:e], sr, 1)` |
| `Segments.SegmentsOf` | util.py:47-48 | one segment per frame, in frame order; segment i is frame i's samples normalised to one second, so its length is within one sample of `sr` |
| `Segments.OnsetSamples` | util.py:37-50 | supplied frames are used as they are; without them, frames come from the onsets, and the call fails exactly when there is no onset; otherwise there is one segment per onset |
| `Segments.DetectedSegments` | util.py:44-48 | with detected onsets, segment i is the normalised audio from onset i to onset i+1, or to the capped end for the last onset |
| `MidiGen.Round` | midigen.py:17 | `round` gives an integer within 0.5 of its argument, and it is even on a tie |
| `MidiGen.RoundMonotone` | midigen.py:17 | rounding preserves order |
| `MidiGen.TickMonotone` | midigen.py:17 | a later time never gets an earlier tick, at any non-negative ticks per second |
| `MidiGen.TicksPerSecond` | midigen.py:11-12 | ticks per second are positive for every valid tempo |
| `MidiGen.Tick` | midigen.py:17 | a hit's tick is within 0.5 of `time * ticks_per_second` |
| `MidiGen.NoteOffDelta` | midigen.py:20 | the note_off delta is non-negative and within 0.5 of `0.1 * ticks_per_second`: one tenth of a second |
| `MidiGen.Ticks` | midigen.py:17 | one absolute tick per hit time, in input order: `round(time * ticks_per_second)` |
| `MidiGen.NoteTrack` | midigen.py:9-21 | the track is `1 + 2n` messages long, and Set Tempo carrying the tempo comes first |
| `MidiGen.TempoCheck` | midigen.py:9-12 | no error exactly for `0 < tempo <= 0xFFFFFF`; a division by zero exactly for tempo 0 |
| `MidiGen.MidiSpec` | midigen.py:4-21 | creating the file fails exactly when the tempo check reports an error |
| `MidiGen.CreateMidi` | midigen.py:4-22 | the loop over the times, with its `last_tick` accumulator and the messages it appends, builds exactly the single-track file `MidiSpec` describes, or the error it describes |
| `MidiGen.NoteTrackSnoc` | midigen.py:16-21 | one more hit time appends exactly one note_on, with delta `tick - last_tick`, and then one note_off |
| `MidiGen.NoteTrackStep` | midigen.py:16-21 | one turn of the loop: the track of the first i + 1 hits is the track of the first i, then hit i's note_on with delta `tick_i - last_tick` and its note_off |
| `MidiGen.NoteTrackPair` | midigen.py:18-21 | hit i gives a note_on at position `1+2i` with delta `tick_i - last_tick`, then a note_off with the fixed note length; both are on key 42 at velocity 64 |
| `MidiGen.NoteTrackPrefix` | midigen.py:16-21 | the first `1+2k` messages are the track of the first k hits |
| `MidiGen.NoteOnDeltasTelescope` | midigen.py:15-21 | there is one note_on per hit, and the note_on deltas sum to the last hit's tick (0 when there is no hit) |
| `MidiGen.PrefixSumIsTick` | midigen.py:15-21 | the sum of the first k note_on deltas equals the k-th hit's tick |
| `MidiGen.AscendingTimesAscendingTicks` | midigen.py:15-18 | for ascending non-negative times, every tick is at least `last_tick` |
| `MidiGen.AscendingTimesNonNegative` | midigen.py:17-20 | for ascending non-negative times at a valid tempo, no delta in the track is negative |
| `MidiGen.OutOfOrderGivesNegativeDelta` | midigen.py:17-18 | times 1.0 then 0.5 at 500000 µs/beat give a second note_on with delta -480: nothing checks the order |
| `MidiGen.TickBelowLastGivesNegativeDelta` | midigen.py:17-19 | for every input, a tick below `last_tick` gives its note_on a negative delta |
| `MidiGen.NoteTrackWritableIff` | midigen.py:16-23 | with a non-negative note length, the track has no negative delta (what the save on line 23 needs) if and only if every tick is at least `last_tick` |
| `MidiGen.TempoExample` | midigen.py:11-20 | at 500000 µs/beat, there are 960 ticks per second, a hit at 1 s is tick 960, and a note lasts 96 ticks |
| `MidiGen.EmptyTimesTempoOnly` | midigen.py:9-16 | with no hit time, the track holds only the Set Tempo message |
| `MidiGen.NoteTrackElapsed` | midigen.py:18-21 | as written, the track's delta-times add up to the last tick plus one note length per hit |
| `MidiGen.NoteOnDrifts` | midigen.py:18-21 | as written, the k-th note_on is read at `tick_k + k * note_length` |
| `MidiGen.DriftExample` | midigen.py:17-21 | hits at 0 s and 1 s (ticks 0 and 960) give a second note_on that a reader places at tick 1056 |
| `MidiGen.AlignedTrack` | midigen.py:18-21 | corrected layout, with the same message shape: Set Tempo first, then one note_on/note_off pair per hit |
| `MidiGen.AlignedTrackPair` | midigen.py:18-21 | in the corrected layout, hit i gives a note_on at position `1+2i`, measured from the end of the previous note, then a note_off of its note length |
| `MidiGen.NoteLengthIsMin` | midigen.py:20 | in the corrected layout, a note lasts the smaller of the fixed note length and the gap to the next hit |
| `MidiGen.AlignedPrefixElapsed` | midigen.py:18-21 | in the corrected layout, the time reached before hit k's note_on is where the previous note ends |
| `MidiGen.AlignedNoteOnAtTick` | midigen.py:18-21 | in the corrected layout, the k-th note_on is read exactly at the k-th hit's tick, and its note_off at that tick plus the note length; that length is the full fixed length unless the next hit comes sooner |
| `MidiGen.AlignedTrackWritable` | midigen.py:18-23 | in the corrected layout, ticks in order and a non-negative note length give a track with no negative delta |
| `MidiGen.AlignedAscendingTimesWritable` | midigen.py:15-23 | in the corrected layout, ascending non-negative times at a valid tempo give a track the writer accepts |
| `MidiGen.AlignedCloseHitsExample` | midigen.py:17-21 | in the corrected layout, hits 48 ticks apart with a 96-tick note length give a first note cut to 48 ticks and a second note_on with delta 0 |
| `Frontend.ArgMax` | frontend.py:85-88 | numpy argmax of a row gives an index of its maximum, and the first such index |
| `Frontend.FirstMaxUnique` | frontend.py:85-88 | a row has exactly one first maximum, so the predicted label is determined |
| `Frontend.Labels` | frontend.py:85-88 | it fails exactly when no label column is configured; otherwise one label per row, in row order, which is the configured label of that row's first-maximum column |
| `Frontend.ColumnOf` | frontend.py:91-92 | the column a label names holds that label, and no earlier column does |
| `Frontend.Confidence` | frontend.py:91-92 | the confidence is one of the row's probabilities; with distinct labels, it is the probability in the predicted label's column |
| `Frontend.ConfidenceIsRowMax` | frontend.py:91-92 | with distinct labels, the confidence of the predicted label is the probability at the argmax column, which is the row maximum |
| `Frontend.PredictionTable.constructor` | drum_transcriber.py:31-32 | the table holds the probability rows and their times, with no prediction columns yet |
| `Frontend.PredictionTable.AssignPredictions` | frontend.py:85-92 | the prediction column becomes the argmax labels; the confidence column becomes each row's probability at its first maximum, which no probability of that row exceeds; times and probabilities are unchanged; if argmax raises, nothing is assigned |
| `Frontend.HitRows` | frontend.py:111 | the row numbers predicted as a label, strictly ascending, including every such row |
| `Frontend.HitTimes` | frontend.py:111 | `hit_times` is the times of exactly those rows, in row order |
| `Frontend.TotalHitsCountsRows` | frontend.py:109-111 | over distinct labels, the hit counts sum to the number of rows predicted as one of them |
| `Frontend.Export` | frontend.py:110-119 | the track for one label carries that label, its `hit_times`, and the file `create_midi` builds from them, with one note pair per hit row |
| `Frontend.ExportSpec` | frontend.py:109-119 | the export succeeds exactly when at least six labels are configured and the tempo is valid, and it then gives six tracks |
| `Frontend.ExportTracks` | frontend.py:109-119 | the loop over `range(1, 7)` builds exactly `ExportSpec`'s tracks, or stops at the first missing key or failing `create_midi` |
| `Frontend.ExportPartitionsRows` | frontend.py:109-111 | with exactly six distinct labels, and every prediction one of them, track k holds label k's hit times and the hit counts sum to the number of rows |
| `Frontend.EachRowInOneTrack` | frontend.py:109-111 | a row lands in the track of its own label and in no other |
| `Frontend.LabelledRowsPartition` | frontend.py:85-111 | labelling the rows and exporting six distinct labels succeeds, and the six hit counts sum to the number of rows |

## Findings

| source | as written | input that shows it | evidently intended | confidence | as-written member | corrected member |
|---|---|---|---|---|---|---|
| midigen.py:18-21 | `last_tick` is the previous note_on's tick, but the note_off delta in between also counts toward the time a MIDI reader computes, so hit k sounds `k * round(0.1 * ticks_per_second)` ticks late | times `[0.0, 1.0]` at tempo 500000: the second note_on is read at tick 1056 instead of 960 | each note_on is read at its own tick: the delta is measured from the end of the previous note, and a note is cut short when the next hit comes sooner than the note length, so no delta is negative for ascending times | not executed; high | `MidiGen.NoteOnDrifts`, `MidiGen.DriftExample` | `MidiGen.AlignedTrack`, `MidiGen.AlignedNoteOnAtTick`, `MidiGen.AlignedTrackWritable` |

`CreateMidi` and `ExportTracks` keep the layout as written, so that they describe the program as it runs. The corrected layout sits beside them. Measuring from the end of the previous note alone is not enough: hits closer together than one note length (under 0.1 s) would then get a negative note_on delta. The corrected layout therefore shortens such a note to the gap (`NoteLengthIsMin`, `AlignedCloseHitsExample`).

## Left out

- The onset detector (util.py:31, util.py:59) is an external signal-processing routine. Its sample positions are a parameter, and `to_onset_times` is not modelled.
- `to_mel_spectrogram` (util.py:64-79) is not modelled. The mel spectrogram, the decibel conversion and the min-max scaler are floating-point library numerics.
- `drum_transcriber.py` is not modelled beyond the table constructor. It loads and runs the neural network, and it pairs hit times with prediction rows by position.
- Floating point is not modelled. Times, probabilities and ticks per second are exact reals, so rounding errors in `time * ticks_per_second` are not captured.
- MidiGen.Round: it rounds the exact real product, not the double that Python rounds.
- mido serialisation and `midi.save` (midigen.py:5-6, 23) are not modelled. The model builds the message list and the file value, and writes nothing.
- MidiGen.CreateMidi: it returns `Ok` for a track with a negative delta-time, where `midi.save` on line 23 raises `ValueError`. The condition is stated separately by `Writable` and `NoteTrackWritableIff`, not as an error of `CreateMidi`.
- The tempo estimate (frontend.py:103) is a parameter of `ExportTracks`.
- Rounding of times to two decimals (frontend.py:93) is not modelled.
- Frontend.PredictionTable: its `Valid` assumes the configured label names are distinct. pandas allows a repeated column name, and then `x[x['prediction']]` is a Series that the `:.1f` format rejects. That case is not modelled.
- Frontend.PredictionTable.AssignPredictions: it stores the confidence as a number and not as its percent string (frontend.py:92), and it leaves the time column unrounded (frontend.py:93).
- Plotting, file paths, directory preparation, the web UI, downloads and CSV export are not modelled. They are I/O.
- Frontend.ExportTracks: it returns the six files instead of writing them. When a later step fails, it does not model the files an earlier iteration already saved.
