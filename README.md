# ai-speed-camera: annotation pipeline model

This project models how ai-speed-camera turns a video-analysis annotation document into car
records (`src/ai_speed_camera/_annotations_processor.py`), and proves properties of that model.
Each tracked object has a list of frames. Each frame carries a time-offset text such as `"1.5s"`
and a normalised bounding box. For each object the pipeline:

1. Reads the leading decimal number of each time offset and converts it to a frame number:
   `int(seconds * frame_rate)`.
2. Overlays the frame's box fields on an all-zero box.
3. Fills the gap between every two consecutive samples with linearly interpolated boxes, as
   `numpy.linspace(..., endpoint=False)[1:]` does.
4. Folds the interpolated list into a frame-number-to-box map.
5. Estimates the speed from the first and last raw samples: the horizontal centroid
   displacement, times the metres the frame spans, over the elapsed time, in km/h rounded to
   hundredths.

The car entities of the first annotation result are numbered in document order. The validity
thresholds (`car_speed >= min_speed`, `rdt >= min_rdt`) are applied only afterwards, so the
indices that survive keep their gaps.

Modules, one per stage:

- `Wrappers`: `Option`, `Result`, and the `Failure` values that stand for the source's runtime errors.
- `Geometry`: box midpoint, centroid, absolute distance and horizontal displacement (`rdt`).
- `Units`: frame/seconds conversions, and `round(x, 2)` over exact reals.
- `TimeOffsets`: the regular expression `\d+(\.\d+)?` anchored at the start, and the value it reads.
- `Interpolation`: `linspace`, the generated boxes, `_pairwise`, and `_add_missing_frames`.
  The last is a `while` loop method, proved equal to a specification function.
- `Lookup`: `_merge_lookups`, and the `functools.reduce` fold over it. The fold is a `for` loop
  method, proved equal to a specification function. The module also proves the density of the
  resulting map.
- `Speed`: `_calculate_speed` and its pieces.
- `Annotations`: `_frame_to_box_lookup` and `_parse_annotation`. The mixed-key dictionary the
  source builds becomes the `Car` record.
- `Cars`: `_is_car`, `_is_car_valid`, and the `_extract_cars` filter/map/enumerate pipeline.

Conventions:

- Coordinates, seconds, distances and speeds are `real`. Frame numbers and indices are `int`.
- `_to_bb` is the `Box` constructor.

The source raises exceptions when an input is malformed. Each of these is an explicit `Err`:

| Failure | Python exception | Cause |
|---|---|---|
| `MissingTimestamp` | `TypeError` | An unparsable offset gives a `(None, None)` sample, which then reaches arithmetic. |
| `NegativeSteps` | `ValueError` | `linspace` is asked for a negative number of samples. |
| `NoFrames` | `IndexError` | `frames[0]` of an annotation without frames. |
| `ZeroFrameRate` | `ZeroDivisionError` | A frame rate of 0. |
| `NoAnnotationResults` | `IndexError` | `annotationResults[0]` of an empty result list. |

When several of these apply, the model returns the one the source would raise first.

### Behaviour on unusual inputs

- **Unparsable time offset.** The frame becomes the sample `(None, None)` and stays in the list.
  - With two or more frames, the interpolation fails on it with `MissingTimestamp`.
  - With one frame, the speed computation fails on it with `MissingTimestamp`.
- **Non-increasing frame numbers.**
  - `steps == 0` adds no intermediate frames, but both samples of the pair are still appended,
    so the pair contributes two samples with the same frame number.
  - A negative `steps` makes `linspace` raise, which is `NegativeSteps` here.
- **Endpoints of consecutive pairs.** Both ends of every pair are appended, so every interior
  raw sample appears twice in a row (`Interpolation.InteriorSampleTwice`). The fold makes this
  harmless: the second copy overwrites the first with the same box.
- **A car seen in one frame.** It gets an empty frame map, because `_pairwise` of one sample is
  empty. Its speed and `rdt` are 0 (`Annotations.SingleFrameRecord`).

## Model

| member | source | states |
|---|---|---|
| Geometry.LineMidpoint | src/ai_speed_camera/_annotations_processor.py:13-14 | The midpoint is equidistant from both ends, and lies between them when `start <= end`. |
| Geometry.BbCentroid | src/ai_speed_camera/_annotations_processor.py:17-21 | The centroid is the horizontal midpoint of left/right and the vertical midpoint of top/bottom. |
| Geometry.AbsDistance | src/ai_speed_camera/_annotations_processor.py:24-25 | `sqrt((x2-x1)**2)`: a non-negative number whose square is `(x2-x1)²`. |
| Geometry.AbsDistanceIsSqrt | src/ai_speed_camera/_annotations_processor.py:24-25 | The square root is unique: any non-negative `d` with `d² = (x2-x1)²` is the distance. |
| Geometry.AbsDistanceSymmetric | src/ai_speed_camera/_annotations_processor.py:24-25 | The distance does not depend on the order of its arguments. |
| Geometry.RelativeDistanceTraveled | src/ai_speed_camera/_annotations_processor.py:124-127 | `rdt` is non-negative, and twice it is plus or minus the difference of `left+right` between the boxes, that is, the absolute difference of the horizontal centroids. |
| Geometry.RdtSymmetric | src/ai_speed_camera/_annotations_processor.py:124-127 | Swapping the start and end boxes gives the same `rdt`. |
| Geometry.RdtIgnoresVertical | src/ai_speed_camera/_annotations_processor.py:124-127 | `rdt` depends only on `left` and `right`: changing `top`/`bottom` leaves it alone. |
| Geometry.RdtAtMostFrameWidth | src/ai_speed_camera/_annotations_processor.py:122-127 | For boxes normalised to the frame (coordinates in `[0, 1]`), `rdt <= 1`. |
| Units.Trunc | src/ai_speed_camera/_annotations_processor.py:37 | `int()` of a real truncates toward zero: it is the floor for non-negative values and the ceiling for negative ones. |
| Units.SecondsToFrameNumber | src/ai_speed_camera/_annotations_processor.py:36-37 | The frame number is non-negative for non-negative inputs, and is the whole part of `seconds * frame_rate`. |
| Units.FrameNumberToSeconds | src/ai_speed_camera/_annotations_processor.py:40-41 | Seconds times the frame rate is the frame number (the frame rate must be non-zero). |
| Units.FrameSecondsRoundTrip | src/ai_speed_camera/_annotations_processor.py:36-41 | Converting a frame number to seconds and back gives the same frame number. |
| Units.WholeSecondsFrame | src/ai_speed_camera/_annotations_processor.py:36-37 | A whole number of seconds gives exactly `seconds * frame_rate`. |
| Units.SecondsWithinFrame | src/ai_speed_camera/_annotations_processor.py:36-37 | At a positive frame rate, the time lies within the frame it is assigned to: `n/fr <= seconds < (n+1)/fr`. |
| Units.RoundHalfEven | src/ai_speed_camera/_annotations_processor.py:29 | The result is within 0.5 of the input, and a tie goes to the even integer. |
| Units.RoundHundredths | src/ai_speed_camera/_annotations_processor.py:29 | `round(x, 2)` is within 0.005 of `x` and is a whole number of hundredths. |
| Units.MpsToKmh | src/ai_speed_camera/_annotations_processor.py:28-29 | The km/h value is within 0.005 of `3.6 * mps`, non-negative for non-negative `mps`, and a whole number of hundredths. |
| Units.MpsToKmhUnit | src/ai_speed_camera/_annotations_processor.py:28-29 | `1/3.6` m/s converts to exactly 1 km/h. |
| TimeOffsets.LeadingDigits | src/ai_speed_camera/_annotations_processor.py:10 | The greedy `\d+` run: every character in it is a digit, and the character after it is not. |
| TimeOffsets.MatchSeconds | src/ai_speed_camera/_annotations_processor.py:10 | The anchored match exists iff the text starts with a digit. The matched prefix is a seconds literal, and no longer prefix is one; with no match, no prefix is one. |
| TimeOffsets.WholeMatchIsLongest | src/ai_speed_camera/_annotations_processor.py:10 | Without a `.` followed by a digit, the match is the digit run, and nothing longer matches. |
| TimeOffsets.FractionalMatchIsLongest | src/ai_speed_camera/_annotations_processor.py:10 | With a `.` and a digit after the run, the match extends through the fraction digits, and nothing longer matches. |
| TimeOffsets.NoPrefixMatches | src/ai_speed_camera/_annotations_processor.py:10 | A text that does not start with a digit has no matching prefix. |
| TimeOffsets.LiteralValue | src/ai_speed_camera/_annotations_processor.py:54 | `float(m.group())`: its whole part is the value of the integer digits. |
| TimeOffsets.TimeToSeconds | src/ai_speed_camera/_annotations_processor.py:32-33 | A number is read iff the text starts with a digit. It is non-negative, and its whole part is the value of the leading digits. |
| TimeOffsets.RenderValue | src/ai_speed_camera/_annotations_processor.py:10 | Writing a natural number in decimal and reading it back gives the number. |
| TimeOffsets.TimeToSecondsOfDigits | src/ai_speed_camera/_annotations_processor.py:32-33 | Digits followed by anything that does not continue a number read as those digits' value. |
| TimeOffsets.TimeToSecondsOfDecimal | src/ai_speed_camera/_annotations_processor.py:32-33 | `whole.fraction` followed by a non-digit reads as whole plus fraction value. |
| TimeOffsets.DecimalReadsAsLiteral | src/ai_speed_camera/_annotations_processor.py:32-33 | `whole.fraction` is a literal, and it is what is read from `whole.fraction` plus a non-digit. |
| TimeOffsets.MatchOfDecimal | src/ai_speed_camera/_annotations_processor.py:10 | For `whole.fraction` plus a non-digit, the match consumes exactly `whole`, `.` and `fraction`. |
| TimeOffsets.LiteralValueOfDecimal | src/ai_speed_camera/_annotations_processor.py:54 | The value of a `whole.fraction` literal is the integer part plus the fraction part. |
| TimeOffsets.TimeToSecondsOfRendered | src/ai_speed_camera/_annotations_processor.py:32-33 | An offset written as a rendered whole number plus a suffix reads as that number. |
| TimeOffsets.ReadsFractionalSeconds | src/ai_speed_camera/_annotations_processor.py:10 | `"1.5s"` reads as 1.5. |
| TimeOffsets.PointWithoutDigitsStops | src/ai_speed_camera/_annotations_processor.py:10 | `"1.s"` reads as 1: the `.` is not consumed without a digit after it. |
| TimeOffsets.ReadsWholeSeconds | src/ai_speed_camera/_annotations_processor.py:10 | `"0s"` reads as 0 and `"2s"` reads as 2. |
| TimeOffsets.NoLeadingDigitNoSeconds | src/ai_speed_camera/_annotations_processor.py:10 | `"s1"`, `".5s"` and `""` read as nothing. |
| Interpolation.LerpEnds | src/ai_speed_camera/_annotations_processor.py:82-84 | Step 0 of the linear formula is the start, and step `n` is the end. |
| Interpolation.LerpBoxEnds | src/ai_speed_camera/_annotations_processor.py:81-87 | The same holds for boxes, coordinate by coordinate. |
| Interpolation.Linspace | src/ai_speed_camera/_annotations_processor.py:82-84 | `linspace(start, stop, num, endpoint=False)` has `num` values, the k-th being `start + (stop-start)*k/num`. |
| Interpolation.StepCoords | src/ai_speed_camera/_annotations_processor.py:81-84 | Dropping the first value leaves `steps-1` values (none for 0 steps), the i-th at step `i+1`. |
| Interpolation.GenerateBoundingBoxes | src/ai_speed_camera/_annotations_processor.py:78-88 | Boxes are generated iff `steps >= 0` (otherwise `NegativeSteps`). There are `steps-1` of them (none for 0), and box i is `start + (end-start)*(i+1)/steps` in every coordinate. |
| Interpolation.GenerateBetweenEqualBoxes | src/ai_speed_camera/_annotations_processor.py:78-88 | Between two equal boxes every generated box is that box. |
| Interpolation.GenerateEvenlySpaced | src/ai_speed_camera/_annotations_processor.py:78-88 | Consecutive generated boxes differ by `(end-start)/steps` in each coordinate. |
| Interpolation.LerpStep | src/ai_speed_camera/_annotations_processor.py:82-84 | One step of the linear formula adds `(b-a)/n`. |
| Interpolation.Enumerate | src/ai_speed_camera/_annotations_processor.py:114-116 | `enumerate(boxes, start=s)` pairs box i with frame number `s+i`. |
| Interpolation.Pairwise | src/ai_speed_camera/_annotations_processor.py:62-69 | There are one fewer pairs than elements (none for an empty list), the i-th being `(s[i], s[i+1])`. |
| Interpolation.Segment | src/ai_speed_camera/_annotations_processor.py:106-118 | One pair's contribution exists iff both samples parsed and the frame number does not decrease. A missing sample is `MissingTimestamp`; a decrease is `NegativeSteps`. |
| Interpolation.SegmentContents | src/ai_speed_camera/_annotations_processor.py:106-118 | A pair contributes start, then the boxes for `start+1 .. end-1` on the linear formula, then end. That is `end-start+1` samples, or 2 when the frame numbers are equal. |
| Interpolation.SegmentForward | src/ai_speed_camera/_annotations_processor.py:106-118 | For increasing frame numbers, sample t of the contribution is frame `start+t` with the box at step t. |
| Interpolation.SegmentEnds | src/ai_speed_camera/_annotations_processor.py:107-118 | A pair contributes at least two samples, the first its start and the last its end. |
| Interpolation.Interpolate | src/ai_speed_camera/_annotations_processor.py:103-104 | Fewer than two samples give an empty list. |
| Interpolation.InterpolatePairs | src/ai_speed_camera/_annotations_processor.py:104-119 | The loop over the pairs. No pairs give the empty list. On success every pair has both samples and a frame number that does not go back. On failure the error is that of the first pair that does not: `MissingTimestamp` if it lacks a sample, otherwise `NegativeSteps`; every earlier pair is in order. |
| Interpolation.AddMissingFrames | src/ai_speed_camera/_annotations_processor.py:103-119 | The loop that appends each pair's start, intermediates and end computes exactly `Interpolate`, including the first error. |
| Interpolation.AppendPair | src/ai_speed_camera/_annotations_processor.py:107-118 | One pass of the loop body extends `all_frames` by exactly the pair's segment, or fails with the segment's error. |
| Interpolation.PairFails | src/ai_speed_camera/_annotations_processor.py:106-118 | The first failing pair's error is the result. |
| Interpolation.FailureIsFinal | src/ai_speed_camera/_annotations_processor.py:106-118 | Once a prefix of pairs fails, the whole run fails with that error. |
| Interpolation.InterpolatePairsSucceeds | src/ai_speed_camera/_annotations_processor.py:103-119 | The run succeeds iff every pair's contribution does. |
| Interpolation.InterpolateSucceeds | src/ai_speed_camera/_annotations_processor.py:103-119 | `_add_missing_frames` succeeds iff there are fewer than two samples, or every sample parsed and the frame numbers never decrease. |
| Interpolation.SucceedingFramesAreOrdered | src/ai_speed_camera/_annotations_processor.py:106-113 | If every pair succeeds, every sample parsed and the frame numbers are non-decreasing. |
| Interpolation.OrderedFramesSucceed | src/ai_speed_camera/_annotations_processor.py:106-113 | Parsed, non-decreasing samples make every pair succeed. |
| Interpolation.InterpolatePrefixLength | src/ai_speed_camera/_annotations_processor.py:103-119 | For increasing frame numbers, the first n pairs give `i_n - i_0 + n` samples: the sum of `(end-start)+1` over those pairs. |
| Interpolation.InterpolateLength | src/ai_speed_camera/_annotations_processor.py:103-119 | For increasing frame numbers, the whole list has `i_last - i_0 + m` samples, where m+1 is the number of raw samples. |
| Interpolation.InterpolatePairsErrors | src/ai_speed_camera/_annotations_processor.py:106-118 | A failure is `MissingTimestamp` or `NegativeSteps`, and only `NegativeSteps` when every sample parsed. |
| Interpolation.InterpolateErrors | src/ai_speed_camera/_annotations_processor.py:103-119 | The same for `_add_missing_frames` of a sample list. |
| Interpolation.InterpolatePairsPrefix | src/ai_speed_camera/_annotations_processor.py:104-119 | The list built from the first n pairs is a prefix of the list built from all of them. |
| Interpolation.AdjacentPairsMeet | src/ai_speed_camera/_annotations_processor.py:107-118 | When pair i-1 ends at the sample pair i starts from, that sample is the last element of the list built from the first i pairs and also the element right after it. |
| Interpolation.InteriorSampleTwice | src/ai_speed_camera/_annotations_processor.py:107-118 | For parsed, non-decreasing samples, every raw sample strictly between the first and the last appears at two consecutive positions of the interpolated list. |
| Lookup.MergeLookups | src/ai_speed_camera/_annotations_processor.py:72-75 | Merging adds the sample's frame number as a key, maps it to the sample's box, and leaves every other key unchanged. |
| Lookup.ReduceLookups | src/ai_speed_camera/_annotations_processor.py:165 | The fold keeps the initial keys and adds every sample's frame number. |
| Lookup.ReduceKeys | src/ai_speed_camera/_annotations_processor.py:165 | The fold's keys are exactly the initial keys plus the samples' frame numbers. |
| Lookup.BuildLookup | src/ai_speed_camera/_annotations_processor.py:72-75 | The loop that assigns `lookup[frame_number] = box` for each sample, in order, computes exactly the `functools.reduce` fold from `{}`. |
| Lookup.ReduceLastWins | src/ai_speed_camera/_annotations_processor.py:72-75 | A key maps to the box of the last sample with that frame number. |
| Lookup.ReduceUntouched | src/ai_speed_camera/_annotations_processor.py:72-75 | A key that no sample names keeps its box. |
| Lookup.ReduceAppend | src/ai_speed_camera/_annotations_processor.py:165 | Folding `a + b` is folding `a`, then folding `b` into the result. |
| Lookup.ReduceConsecutive | src/ai_speed_camera/_annotations_processor.py:165 | Folding samples with consecutive frame numbers adds exactly that range of keys, with their boxes, and leaves other keys unchanged. |
| Lookup.MergeInterpolated | src/ai_speed_camera/_annotations_processor.py:165 | Folding one pair's contribution covers `[start, end]` with the interpolated boxes and leaves the rest unchanged. |
| Lookup.DenseStep | src/ai_speed_camera/_annotations_processor.py:164-165 | Folding one more pair extends the covered range to that pair's end frame. |
| Lookup.DensePrefix | src/ai_speed_camera/_annotations_processor.py:164-165 | After the first n pairs, the keys are exactly `[i_0, i_n]`, each mapped to its segment's interpolated box. |
| Lookup.DenseLookup | src/ai_speed_camera/_annotations_processor.py:164-165 | For two or more samples with strictly increasing frame numbers, the keys are exactly `[i_0, i_last]`. Each key maps to the interpolated box of its segment, and each raw frame number maps to its raw box. |
| Lookup.SampledFramesKeepTheirBoxes | src/ai_speed_camera/_annotations_processor.py:164-165 | A map that interpolates every segment maps each raw frame number to its raw box. |
| Speed.Elapsed | src/ai_speed_camera/_annotations_processor.py:142-144 | The elapsed time times the frame rate is the difference of the frame numbers. |
| Speed.ElapsedPositive | src/ai_speed_camera/_annotations_processor.py:142-145 | At a positive frame rate, time passes iff the end frame is later than the start frame. |
| Speed.MetresPerSecond | src/ai_speed_camera/_annotations_processor.py:141-145 | Metres per second times the time is `distance * rdt`, and is non-negative for a non-negative distance. |
| Speed.SpeedBetween | src/ai_speed_camera/_annotations_processor.py:140-145 | The speed is 0.0 when no time passes. Otherwise it is within 0.005 of 3.6 times the metres per second. It is non-negative for a non-negative distance. |
| Speed.CalculateSpeed | src/ai_speed_camera/_annotations_processor.py:130-158 | No frames gives `NoFrames`; an unparsed first or last sample gives `MissingTimestamp`; a frame rate of 0 gives `ZeroFrameRate`. Otherwise the result is the speed between the first and the last sample, and it is never an error. |
| Speed.SpeedUsesEndpointsOnly | src/ai_speed_camera/_annotations_processor.py:139 | Only the first and last samples matter: the result is the same for those two alone. |
| Speed.NoTimeNoSpeed | src/ai_speed_camera/_annotations_processor.py:145 | If the last frame is not later than the first (e.g. one sample), the speed is 0.0. |
| Speed.SpeedFromFrameCount | src/ai_speed_camera/_annotations_processor.py:141-145 | For a forward-moving car, metres per second times the frame count is metres times the frame rate. |
| Annotations.BoxOf | src/ai_speed_camera/_annotations_processor.py:56 | `default_bb` overlaid with the frame's fields: each coordinate comes from the frame's fields when present and is 0 otherwise. |
| Annotations.DefaultBb | src/ai_speed_camera/_annotations_processor.py:48 | `default_bb` has exactly the keys `left`, `top`, `right` and `bottom`, each mapped to 0. |
| Annotations.FrameToBoxLookup | src/ai_speed_camera/_annotations_processor.py:51-59 | A sample exists iff the offset starts with a digit; its box is the overlaid box and its frame number is the frame of the seconds read from the offset. |
| Annotations.SampleFrameIsFloor | src/ai_speed_camera/_annotations_processor.py:52-55 | At a non-negative frame rate a parsed sample's time is non-negative and its frame number is the floor of `seconds * frame_rate`. |
| Annotations.FrameOfWholeSeconds | src/ai_speed_camera/_annotations_processor.py:51-59 | The offset `"<n>s"` gives frame `n * frame_rate`. |
| Annotations.FrameBoxes | src/ai_speed_camera/_annotations_processor.py:163 | One sample per frame, in order, each the frame's lookup. |
| Annotations.FrameBoxesParsed | src/ai_speed_camera/_annotations_processor.py:163 | Every sample parsed iff every offset starts with a digit. |
| Annotations.AnnotationRecord | src/ai_speed_camera/_annotations_processor.py:161-180 | A record is built iff there is a frame, the frame rate is non-zero, every offset parses and the frame numbers never decrease. No frames gives `NoFrames`. |
| Annotations.RecordErrors | src/ai_speed_camera/_annotations_processor.py:161-180 | An unparsable offset gives `MissingTimestamp` or `NegativeSteps`. Decreasing frame numbers give `NegativeSteps`. A frame rate of 0 gives `ZeroFrameRate`. |
| Annotations.RecordFields | src/ai_speed_camera/_annotations_processor.py:165-179 | The record: the verbatim first and last offsets; the index passed in; `rdt` and speed from the raw first and last samples; and the fold of the interpolated list. |
| Annotations.RecordTrajectory | src/ai_speed_camera/_annotations_processor.py:163-165 | For strictly increasing frames, the record's map covers exactly `[i_0, i_last]`, interpolates every segment, and keeps raw boxes at raw frames. |
| Annotations.SingleFrameRecord | src/ai_speed_camera/_annotations_processor.py:161-180 | A car seen in one frame has an empty map, `rdt` 0 and speed 0. |
| Annotations.ParseAnnotation | src/ai_speed_camera/_annotations_processor.py:161-180 | The method that runs the interpolation loop, the fold loop and the field assignments gives exactly `AnnotationRecord`. |
| Cars.CarsOf | src/ai_speed_camera/_annotations_processor.py:189 | `filter(_is_car, ...)` keeps only car entities and never grows the list. |
| Cars.CarsOfMembers | src/ai_speed_camera/_annotations_processor.py:189 | The cars are exactly the annotations whose entity is `"car"`. |
| Cars.CarsOfAppend | src/ai_speed_camera/_annotations_processor.py:189 | The filter distributes over concatenation, so document order is kept. |
| Cars.NonCarIgnored | src/ai_speed_camera/_annotations_processor.py:44-45 | A non-car entity anywhere in the list changes nothing. |
| Cars.IsCar | src/ai_speed_camera/_annotations_processor.py:44-45 | True iff the entity's description is `"car"`. |
| Cars.Outcomes | src/ai_speed_camera/_annotations_processor.py:191-196 | Car i is parsed with index i, its position among the cars. |
| Cars.CollectRecords | src/ai_speed_camera/_annotations_processor.py:191-196 | `list(map(...))` succeeds iff every car's record does, and then holds those records in order. |
| Cars.CollectFirstError | src/ai_speed_camera/_annotations_processor.py:191-196 | The first failing car decides the error. |
| Cars.ParseCars | src/ai_speed_camera/_annotations_processor.py:191-196 | Succeeds iff every car's record does. Then it holds one record per car, record i being the record of car i parsed with index i. |
| Cars.ValidCars | src/ai_speed_camera/_annotations_processor.py:197-201 | Every kept record passes both thresholds, and the list never grows. |
| Cars.IsCarValid | src/ai_speed_camera/_annotations_processor.py:183-184 | True iff `car_speed >= min_speed` and `rdt >= min_rdt`. |
| Cars.ValidCarsMembers | src/ai_speed_camera/_annotations_processor.py:197-201 | A record is kept iff it passes both thresholds. |
| Cars.ValidCarsKeepIndices | src/ai_speed_camera/_annotations_processor.py:191-201 | For records numbered by position, the kept indices strictly increase and each names the record it came from. |
| Cars.StricterThresholdKeepsFewer | src/ai_speed_camera/_annotations_processor.py:183-184 | Raising either threshold never adds a car. |
| Cars.FilterLeavesIndexGap | src/ai_speed_camera/_annotations_processor.py:197-201 | A dropped slow first car leaves the second with index 1. |
| Cars.ExtractCars | src/ai_speed_camera/_annotations_processor.py:187-208 | An empty result list gives `NoAnnotationResults`. Otherwise the result is an error iff some car's record is. |
| Cars.ExtractedCars | src/ai_speed_camera/_annotations_processor.py:187-208 | The output is exactly the valid records among the cars, with strictly increasing indices in `[0, N)`. Each index names its car's record, and it is not renumbered. |

## Left out

- Logging (`logging.debug` in `_calculate_speed`, `logging.info` in `_extract_cars`) is left out as observability only.
  - `CalculateSpeed` therefore drops the index and the start and end times, which are used only for logging.
- `src/ai_speed_camera/__main__.py` is left out: command-line parsing, JSON reading, CSV writing and the video frame annotation are I/O.
  - As a result, the JSON document is taken as already parsed into the `AnnotationsResponse` datatype.
- The tests only invoke the command line end to end, so they are not part of this model.
- Floating point is replaced by exact reals throughout.
  - This covers `float()` of the matched text, `numpy.linspace` arithmetic, `math.sqrt`, the true division, and `round(x, 2)`.
  - Units.SecondsToFrameNumber truncates the exact product `seconds * frame_rate`, not the binary float product. These can differ by a whole frame: in binary floats `4.35 * 100` is `434.99999999999994`, so at 100 fps the source assigns `"4.35s"` to frame 434, where the model gives frame 435.
  - Units.RoundHundredths rounds half to even on the exact value, not on the nearest binary float. Python's `round` on floats can differ on decimal ties.
  - Geometry.AbsDistance is characterised as the non-negative square root over reals, not as the float `math.sqrt` result.
- TimeOffsets.IsDigit treats only ASCII `0`-`9` as digits. Python's `\d` also matches other Unicode decimal digits.
- Annotations.BoxOf keeps only `left`, `top`, `right` and `bottom`. Extra keys in `normalizedBoundingBox` survive the dictionary union in the source, but nothing reads them.
  - Coordinates are taken as numbers. A non-numeric JSON value is not modelled.
- `KeyError`s from documents missing `response`, `objectAnnotations`, `entity`, `frames` or `timeOffset` are excluded by the shape of the datatypes.
  - The empty-list `IndexError`s are modelled as `NoFrames` and `NoAnnotationResults`.
- The lazy `map`/`filter`/`zip` iterators are modelled as eager sequences. None has side effects, so only the error order matters, and it is kept.
- Lookup.BuildLookup builds a new map value per step instead of mutating one dictionary in place. The dictionary is never shared, so no aliasing is lost.
- Annotations.AnnotationRecord states its success condition and the `NoFrames` case in its own contract; the record's fields and the other error cases are in RecordFields and RecordErrors.
