# TimecodeString in Dafny

A model of the TimecodeString library, a Java library that converts a video
timecode between its frame count and its `hh:mm:ss:ff` representation at four
frame rates:

- 24 fps, 25 fps and 30 fps, the "nominal" rates, where every label is counted;
- 29.97 fps drop-frame ("30DF"), which labels 30 frames per second but skips
  frames `;00` and `;01` of second 0 in every minute not divisible by ten.

The model covers:

- **the rate enumeration**: parsing a rate name and validating the units;
- **the codecs**: `countFrames`/`countUnits` of the base class, and
  `frameDropCalculation` plus the reverse drop-frame `countUnits` of the
  drop-frame class;
- **the timecode classes**: their `of` constructors, `add`, `subtract` (with
  the drop-frame override and its `frameAdditionCalculation`/`carriage`),
  `equals`, `hashCode`, `toString` and `getStringRepresentation`;
- **the factory**;
- **the input-type classifier**;
- **the `TimecodeString` front end**: `of(rate, value)` followed by
  `getOppositeRepresentation`.

Java semantics that matter here are written out:

- truncating `/` and `%` (`JavaInt.Div`, `JavaInt.Rem`);
- 32-bit wrap-around in `hashCode` (`JavaInt.Wrap32`);
- `%02d` and decimal rendering (`JavaText`);
- `equalsIgnoreCase` and `endsWith` (`FrameRateType`);
- the Guava `checkArgument` message, which appends `[h, m, s, f]` to a
  template that has no `%s`;
- `StringTokenizer` and `Integer.valueOf` (`TimecodeStrings`).

A Java timecode is a mutable object. Here it is the immutable datatype
`TimecodeBase.Timecode(rate, hours, minutes, seconds, frames, frameCount)`.
The class of the object is represented by its rate.

`add` and `subtract` return a `Mutation`: the state the receiver is left in,
plus the `TimecodeException` case thrown afterwards, if any. The source
commits the new state before it checks the limit, so a failed operation still
changes the receiver, and the model shows that state.

Constructors return a `Result`:

- `IllegalArgument(case, message)` for the argument checks;
- `TimecodeError(case)` for a `TimecodeException`;
- `NumberFormat(input)` for `Integer.valueOf`.

What the proofs establish:

- Both codecs round-trip:
  - count → label → count, for every count in range;
  - label → count → label, for every valid label, dropped drop-frame labels
    excepted.
- A dropped drop-frame label is accepted by validation. It shares its count
  with the label two frames earlier (`TimecodeCodec.DroppedLabelAlias`).
- The drop-frame class accepts 23:59:59;29, whose count is exactly the limit
  that `of(frameCount)` refuses (`Df30Timecode.LastLabelAtLimit`).
- When a subtraction goes to zero or below, it takes its minutes, seconds and
  frames from the label of limit + difference:
  - at the nominal rates these are Java's remainder of that count by one hour
    of frames, split into minutes, seconds and frames (`TimecodeBase.Subtraction`):
    - for a difference in (−limit, 0] they are in range and make up the
      difference modulo one hour (`TimecodeBase.NominalWrapWithinHour`);
    - for a difference of −limit or less the count is negative, and since
      Java's division truncates toward zero they are all ≤ 0, the negated
      units of the count's magnitude (`TimecodeCodec.CountUnitsNegate`);
      RESULT_LESSER_LIMIT is then thrown over that state;
  - at the drop-frame rate the label is then stepped one frame on.
- For a difference in (−limit, 0] that drop-frame step is a nominal 30 fps
  step, so it can land on a dropped label (`Df30Timecode.WrapIsNominalNext`,
  `Df30Timecode.WrapLandsOnDroppedLabel`).
- An addition that overflows still commits its state. At the nominal rates the
  hours simply go past 23 (`TimecodeCodec.NominalDecodeFields`); the drop-frame
  decoder takes hours modulo 24, so the label is that of the sum modulo a day of
  limit + 1 frames (`TimecodeCodec.DropFrameDayWrap`).
- `getOppositeRepresentation` is a round trip in both directions
  (`TimecodeStrings.CountStringRoundTrip`,
  `TimecodeStrings.UnitsStringRoundTrip`).

Module layout, one file each: `JavaInt`, `JavaText`, `TimecodeException`,
`FrameRateType`, `TimecodeCodec` (both codecs), `TimecodeBase`, `FpsTimecode`
(the three nominal classes, which differ only in their constants),
`Df30Timecode`, `Timecodes` (the `Timecode` interface), `TimecodeFactory`,
`TimecodeInputType`, `TimecodeStrings`, and `AcceptanceExamples` (cases from
the repository's tests).

## Model

| member | source | states |
|---|---|---|
| JavaInt.TruncatedDivision | src/com/transgressoft/timecode/TimecodeBase.java:74-82 | Java's `/` and `%`, as `countUnits` uses them: the quotient has magnitude \|a\|/b and the sign of a; a == b·q + r; the remainder is below b in magnitude and has the sign of a |
| JavaInt.Wrap32 | src/com/transgressoft/timecode/TimecodeBase.java:110-113 | two's-complement `int` arithmetic: the result is an `int`, congruent to the input modulo 2^32, and equal to it when it already fits |
| JavaText.DigitsValueOfNatToString | src/com/transgressoft/timecode/TimecodeBase.java:154-157 | the decimal rendering of a non-negative number reads back as that number |
| JavaText.Format02d | src/com/transgressoft/timecode/TimecodeBase.java:159-167 | `%02d` of 0..99 is two digits that read back as the value; any other value renders as plain `Integer.toString` |
| FrameRateType.FromString | src/com/transgressoft/timecode/FrameRateType.java:40-56 | failure is always INVALID_FRAME_RATE; a nominal rate is chosen exactly when its name equals the input ignoring case, in both directions; the drop-frame rate is chosen exactly when the input is a suffix of "30DF" |
| FrameRateType.NominalNamesExclusive | src/com/transgressoft/timecode/FrameRateType.java:43-48 | no input equals two of "24fps", "25fps" and "30fps" ignoring case, so the order of the three tests does not matter |
| FrameRateType.AreValidValues | src/com/transgressoft/timecode/FrameRateType.java:58-70 | valid exactly when hours are in 0..23, minutes and seconds in 0..59, and frames in 0..FrameMax−1 |
| FrameRateType.FrameCountLimit | src/com/transgressoft/timecode/df30/Df30Timecode.java:33-38 | a nominal limit is 24·60·60·fps; the drop-frame limit is 24·60·60·30 less two frames for each of the 24·54 dropping minutes, less one |
| FrameRateType.FromStringOfShortName | src/com/transgressoft/timecode/FrameRateType.java:29-56 | every rate's `toString` parses back to that rate |
| FrameRateType.DropFrameNames | src/com/transgressoft/timecode/FrameRateType.java:49-50 | the drop-frame rate is chosen exactly for "30DF", "0DF", "DF", "F" and the empty string |
| FrameRateType.LowerCaseDropFrameRefused | src/com/transgressoft/timecode/FrameRateType.java:49-53 | the suffix test is case-sensitive: "30df" is refused, and so is "GH45" |
| FrameRateType.Fps24NameCaseInsensitive | src/com/transgressoft/timecode/FrameRateType.java:43-44 | "24fps" is accepted in any mix of cases, including the long s |
| TimecodeCodec.CountUnitsReencodes | src/com/transgressoft/timecode/TimecodeBase.java:67-82 | `countFrames` applied to `countUnits(n)` gives n back for every n, negative ones included |
| TimecodeCodec.CountUnitsNegate | src/com/transgressoft/timecode/TimecodeBase.java:74-82 | Java's truncating division makes `countUnits` odd: the units of −n are the units of n, each negated |
| TimecodeCodec.NominalDecodeFields | src/com/transgressoft/timecode/TimecodeBase.java:67-82 | for every n, negative ones included, `countUnits(n)` re-encodes to n, and its minutes, seconds and frames make up Java's n % (one hour of frames), each with the sign of n and a magnitude below its radix |
| TimecodeCodec.NominalFieldsUnique | src/com/transgressoft/timecode/TimecodeBase.java:67-82 | at most one set of units meets that description for a given n, so it pins exactly what `countUnits` leaves |
| TimecodeCodec.CountUnitsBounds | src/com/transgressoft/timecode/TimecodeBase.java:74-82 | for n ≥ 0, `countUnits` leaves hours ≥ 0, minutes and seconds in 0..59, and frames in 0..fps−1 |
| TimecodeCodec.CountFramesRoundTrip | src/com/transgressoft/timecode/TimecodeBase.java:67-82 | the valid units of a day count to a value in [0, 24·3600·fps) that `countUnits` decodes back to those units |
| TimecodeCodec.NominalUnitsRoundTrip | src/com/transgressoft/timecode/TimecodeBase.java:67-82 | at a nominal rate, a valid label encodes below the limit and decodes back to itself |
| TimecodeCodec.NominalCountRoundTrip | src/com/transgressoft/timecode/TimecodeBase.java:67-82 | at a nominal rate, a count in range decodes to a valid label that encodes back to it |
| TimecodeCodec.NominalDecodeLimit | src/com/transgressoft/timecode/TimecodeBase.java:74-82 | at a nominal rate, the limit itself decodes to 24:00:00:00 |
| TimecodeCodec.Clock30 | src/com/transgressoft/timecode/df30/Df30Timecode.java:66-69 | the nominal 30 fps split of 1800·T + w (w < 1800) is hours T/60 mod 24, minutes T mod 60, seconds w/30, frames w mod 30 |
| TimecodeCodec.DropFrameStructure | src/com/transgressoft/timecode/df30/Df30Timecode.java:57-70 | every count n ≥ 0 is 17982·d + 1798·k + w, with k ≤ 9, w < 1800 and w ≥ 2 when k ≠ 0; the reverse calculation yields 1800·(10d + k) + w, so the label is minute 10d + k, frame w |
| TimecodeCodec.DropFrameDecodeValid | src/com/transgressoft/timecode/df30/Df30Timecode.java:57-70 | drop-frame decoding of a count ≥ 0 gives a valid label, and never a dropped one |
| TimecodeCodec.DropFrameEncodeLabel | src/com/transgressoft/timecode/df30/Df30Timecode.java:46-50 | the label T minutes and w frames into the day counts 1798·T + 2·(T/10) + w frames |
| TimecodeCodec.DropFrameCountRoundTrip | src/com/transgressoft/timecode/df30/Df30Timecode.java:46-70 | every count in 0..limit decodes to a valid, non-dropped label that encodes back to the count |
| TimecodeCodec.DropFrameUnitsRoundTrip | src/com/transgressoft/timecode/df30/Df30Timecode.java:46-70 | a valid, non-dropped label encodes into 0..limit and decodes back to itself |
| TimecodeCodec.DroppedLabelAlias | src/com/transgressoft/timecode/df30/Df30Timecode.java:46-50 | a dropped label mm:00;0f encodes like the label (mm−1):59;(28+f) and decodes to that label |
| TimecodeCodec.DropFrameNext | src/com/transgressoft/timecode/df30/Df30Timecode.java:57-64 | the reverse calculation of n+1 exceeds that of n by one, or by three exactly when one step on lands on a dropped label |
| TimecodeCodec.DropFrameLimitLabel | src/com/transgressoft/timecode/df30/Df30Timecode.java:33-37 | 23:59:59;29 encodes to exactly the limit, and 23:59:59;28 to the limit less one; the limit decodes to 23:59:59;29 |
| TimecodeCodec.CountRoundTrip | src/com/transgressoft/timecode/TimecodeBase.java:60-82 | at every rate, a count in [0, limit) decodes to a counted label (valid, and at drop-frame not a dropped one) that encodes to it |
| TimecodeCodec.DropFrameDayWrap | src/com/transgressoft/timecode/df30/Df30Timecode.java:57-70 | a drop-frame count n ≥ 0 decodes like n modulo a day (limit + 1 frames): a counted label (valid, not dropped) that encodes to n modulo a day |
| TimecodeCodec.DecodeAnyCount | src/com/transgressoft/timecode/TimecodeBase.java:74-82 | what `countUnits` leaves for any count: at a nominal rate the units described in `NominalDecodeFields`, at drop-frame for a count ≥ 0 the counted label of the count modulo a day |
| TimecodeCodec.CountedLabelUnique | src/com/transgressoft/timecode/df30/Df30Timecode.java:46-70 | two counted labels with the same count are equal, so "counted and encodes to n" names exactly the label `countUnits` gives for n |
| TimecodeBase.FromFrameCount | src/com/transgressoft/timecode/TimecodeBase.java:60-65 | succeeds exactly for 0 ≤ n < limit, keeping n and giving a counted label (valid, and at drop-frame not a dropped one) that encodes to n; otherwise IllegalArgument with FRAME_COUNT_LESS_0 and its message, or with FRAME_COUNT_GREATER_LIMIT and the message followed by " " and the limit |
| TimecodeBase.Addition | src/com/transgressoft/timecode/TimecodeBase.java:84-90 | the count becomes the sum and is committed; RESULT_GREATER_LIMIT is thrown exactly when the sum reaches the limit; a sum in range leaves a counted label (valid, and at drop-frame not a dropped one) that encodes to the sum; at a nominal rate every sum, overflowing or negative, leaves the units that re-encode to it with minutes, seconds and frames as Java's remainder by one hour; at drop-frame every sum ≥ 0 leaves the counted label of the sum modulo a day |
| TimecodeBase.Subtraction | src/com/transgressoft/timecode/TimecodeBase.java:92-104 | the count becomes the difference; RESULT_LESSER_LIMIT is thrown exactly when its magnitude reaches the limit; a positive difference in range leaves a counted label (valid, and at drop-frame not a dropped one) that encodes to the difference; a difference ≤ 0 leaves hours = own hours − other hours; at a nominal rate any positive difference leaves the units that re-encode to it, and a difference ≤ 0 leaves minutes, seconds and frames that make up Java's (limit + difference) % (one hour of frames) with its sign, including the negative counts of differences ≤ −limit |
| TimecodeBase.AdditionCommutes | src/com/transgressoft/timecode/TimecodeBase.java:84-90 | a + b and b + a leave the same fields and count and throw alike |
| TimecodeBase.NominalWrapWithinHour | src/com/transgressoft/timecode/TimecodeBase.java:96-100 | at a nominal rate, a difference in (−limit, 0] leaves minutes, seconds and frames in range, and they encode the difference modulo one hour of frames |
| TimecodeBase.EqualsIgnoresRate | src/com/transgressoft/timecode/TimecodeBase.java:115-127 | `equals` holds exactly when the two timecodes agree in everything but the class |
| TimecodeBase.HashCode | src/com/transgressoft/timecode/TimecodeBase.java:110-113 | the hash is an `int` |
| TimecodeBase.EqualsHashCode | src/com/transgressoft/timecode/TimecodeBase.java:110-127 | equal timecodes have equal hash codes, whatever their classes |
| TimecodeBase.HashCodePolynomial | src/com/transgressoft/timecode/TimecodeBase.java:110-113 | `Objects.hash(frames, seconds, minutes, hours, frameCount)` is the base-31 polynomial 31^5 + 31^4·frames + 31^3·seconds + 31^2·minutes + 31·hours + frameCount, wrapped once into an `int` |
| TimecodeBase.Render | src/com/transgressoft/timecode/TimecodeBase.java:159-167 | with fields in 0..99: eleven characters, ':' at 2 and 5, the given separator at 8, and two-digit groups that read back as the fields |
| FpsTimecode.OfUnits | src/com/transgressoft/timecode/fps25/Fps25Timecode.java:53-57 | succeeds exactly for valid values, keeping them, with a count in [0, limit) that decodes back to them; otherwise IllegalArgument with "Invalid timecode value [h, m, s, f]" |
| FpsTimecode.OfFrameCount | src/com/transgressoft/timecode/fps25/Fps25Timecode.java:59-61 | succeeds exactly for counts in [0, limit), keeping the count and giving a counted label (valid, and at drop-frame not a dropped one) that encodes to it |
| FpsTimecode.Add | src/com/transgressoft/timecode/fps25/Fps25Timecode.java:63-69 | another class is refused with INVALID_ADDITION and nothing changes; otherwise the base addition |
| FpsTimecode.Subtract | src/com/transgressoft/timecode/fps25/Fps25Timecode.java:71-77 | another class is refused with INVALID_SUBTRACTION and nothing changes; otherwise the base subtraction |
| FpsTimecode.LastLabel | src/com/transgressoft/timecode/fps25/Fps25Timecode.java:34-41 | 23:59:59:(fps−1) counts limit − 1, and the count `limit` is refused |
| FpsTimecode.InvalidValuesNamed | src/com/transgressoft/timecode/fps30/Fps30Timecode.java:53-57 | 30 fps `of(12, 50, 30, 30)` fails with "Invalid timecode value [12, 50, 30, 30]" |
| Df30Timecode.OfUnits | src/com/transgressoft/timecode/df30/Df30Timecode.java:40-76 | succeeds exactly for valid values, dropped labels included, keeping them, with a count in 0..limit; a non-dropped label decodes back from its count and a dropped one decodes to its alias; otherwise IllegalArgument with the bare message |
| Df30Timecode.OfFrameCount | src/com/transgressoft/timecode/df30/Df30Timecode.java:78-84 | the class's own range checks agree exactly with the base frame-count constructor, messages included |
| Df30Timecode.LastLabelAtLimit | src/com/transgressoft/timecode/df30/Df30Timecode.java:33-37 | 23:59:59;29 is accepted with count = limit; 23:59:59;28 has count limit − 1; `of(limit)` fails |
| Df30Timecode.Carriage | src/com/transgressoft/timecode/df30/Df30Timecode.java:129-140 | frames return to 0 and the nominal 30 fps count rises by 30 − frames, with minutes and seconds kept in range |
| Df30Timecode.FrameAdditionCalculation | src/com/transgressoft/timecode/df30/Df30Timecode.java:119-127 | for frames ≠ 30, both branches advance the nominal 30 fps count by exactly one, with the fields kept in range |
| Df30Timecode.FrameAdditionCases | src/com/transgressoft/timecode/df30/Df30Timecode.java:119-140 | on a label with minutes, seconds and frames in range: frame 29 carries into the next second, second 59 into the next minute, minute 59 into the next hour; otherwise the frame number rises by one |
| Df30Timecode.FrameAdditionIsNominalNext | src/com/transgressoft/timecode/df30/Df30Timecode.java:119-140 | stepping the label of nominal count t gives the label of t + 1, hours aside |
| Df30Timecode.PastDroppedLabel | src/com/transgressoft/timecode/df30/Df30Timecode.java:57-70 | two frames on from a dropped label is frame 2 of the same minute |
| Df30Timecode.Subtraction | src/com/transgressoft/timecode/df30/Df30Timecode.java:102-117 | on a drop-frame receiver: the count becomes the difference; RESULT_LESSER_LIMIT exactly when its magnitude reaches the limit; a positive difference in range leaves the non-dropped valid label that encodes to it, and any positive difference the counted label of the difference modulo a day; a difference ≤ 0 leaves hours = own hours − other hours |
| Df30Timecode.WrapIsNominalNext | src/com/transgressoft/timecode/df30/Df30Timecode.java:107-112 | for a difference in (−limit, 0], the clock face is the nominal successor of the label of n = limit + difference; it equals the label of n + 1 unless it is a dropped label, in which case the label of n + 1 is two frames further on |
| Df30Timecode.WrapLandsOnDroppedLabel | src/com/transgressoft/timecode/df30/Df30Timecode.java:107-112 | 00:00:00;00 − 23:58:59;28 leaves (−23, 01, 00, 00) with count −2587608 and no exception; 01:00;00 is a dropped label, and the count 1800 reads 00:01:00;02 |
| Df30Timecode.Add | src/com/transgressoft/timecode/df30/Df30Timecode.java:86-92 | another class is refused with INVALID_ADDITION and nothing changes; otherwise the base addition |
| Df30Timecode.Subtract | src/com/transgressoft/timecode/df30/Df30Timecode.java:94-100 | another class is refused with INVALID_SUBTRACTION and nothing changes; otherwise the drop-frame subtraction |
| Timecodes.Add | src/com/transgressoft/timecode/Timecode.java:28-39 | INVALID_ADDITION exactly for another class, leaving the receiver unchanged; otherwise the sum is committed, with RESULT_GREATER_LIMIT exactly when it reaches the limit; a non-negative sum without exception leaves a counted label (valid, and at drop-frame not a dropped one) that encodes to the sum; for one class the result, state and exception, is exactly `TimecodeBase.Addition`'s |
| Timecodes.Subtract | src/com/transgressoft/timecode/Timecode.java:41-52 | INVALID_SUBTRACTION exactly for another class, leaving the receiver unchanged; otherwise the difference is committed, with RESULT_LESSER_LIMIT exactly when its magnitude reaches the limit; a positive difference without exception leaves a counted label (valid, and at drop-frame not a dropped one) that encodes to the difference; a difference ≤ 0 leaves hours = own hours − other hours; for one class the result is exactly `TimecodeBase.Subtraction`'s at a nominal rate and `Df30Timecode.Subtraction`'s at drop-frame |
| Timecodes.GetStringRepresentation | src/com/transgressoft/timecode/Timecode.java:64-70 | with fields in 0..99: `hh:mm:ss` then the class's separator (';' for drop-frame) then `ff`, with groups that read back as the fields |
| Timecodes.ToString | src/com/transgressoft/timecode/TimecodeBase.java:154-157 | "Timecode[" + representation + "/" + count + "]", with the representation at positions 9..19 and digits that read back as the count |
| Timecodes.SubtractSelf | src/com/transgressoft/timecode/TimecodeBase.java:92-104 | subtracting an equal but distinct timecode leaves all fields 0 and throws nothing, at every rate |
| Timecodes.SubtractAliased | src/com/transgressoft/timecode/TimecodeBase.java:92-104 | `x.subtract(x)` on one object reads the argument's hours after `countUnits(limit)` has set them to 24 (at drop-frame after 23:59:59;29 is stepped to 24:00:00;00), so it leaves hours h − 24, the other fields 0, and throws nothing |
| Timecodes.MixedClassesRefused | src/com/transgressoft/timecode/df30/Df30Timecode.java:86-100 | a 30 fps and a drop-frame timecode can be neither added nor subtracted, in either order |
| TimecodeFactory.ChooseFactory | src/com/transgressoft/timecode/TimecodeFactory.java:42-59 | each rate gets the factory of its own class |
| TimecodeFactory.CreateTimeCode | src/com/transgressoft/timecode/TimecodeFactory.java:37-40 | succeeds exactly for valid values, giving the requested rate, the given fields and their encoding; otherwise the class's INVALID_TIMECODE refusal |
| TimecodeFactory.CreateTimeCodeFromCount | src/com/transgressoft/timecode/TimecodeFactory.java:63-68 | agrees with the base frame-count constructor of the requested rate |
| TimecodeInputType.FromString | src/com/transgressoft/timecode/TimecodeInputType.java:49-61 | units form exactly for the pattern `dd:dd:dd[:;]dd`; frame-count form exactly for one or more digits; INVALID_INPUT_FORMAT otherwise |
| TimecodeInputType.FormsDisjoint | src/com/transgressoft/timecode/TimecodeInputType.java:52-55 | no string has both forms |
| TimecodeInputType.ClassificationExamples | src/com/transgressoft/timecode/TimecodeInputType.java:49-61 | "99:99:99:99" is a units form; "571" is a frame count; "-15" and "12:ab:23;44" are refused |
| TimecodeStrings.Tokens | src/com/transgressoft/timecode/TimecodeString.java:86-92 | `StringTokenizer` over ":;" yields only non-empty tokens without delimiters, which joined together are `s` with its delimiters removed |
| TimecodeStrings.TokensOfWeave | src/com/transgressoft/timecode/TimecodeString.java:86-92 | tokens separated by runs of delimiters come back out exactly, so each token is a maximal run of non-delimiters and no other token appears |
| TimecodeStrings.WeaveOfTokens | src/com/transgressoft/timecode/TimecodeString.java:86-92 | every string is its tokens, in order, separated by runs of delimiters (non-empty between two tokens), with optional delimiters before the first and after the last |
| TimecodeStrings.TokensOfUnitsForm | src/com/transgressoft/timecode/TimecodeString.java:86-92 | a units-form string yields exactly its four two-character groups |
| TimecodeStrings.IntegerValueOf | src/com/transgressoft/timecode/TimecodeString.java:60 | a run of digits parses to its value exactly when that fits an `int`; every success is an `int`; every failure is a NumberFormatException |
| TimecodeStrings.IntegerValueOfIntToString | src/com/transgressoft/timecode/TimecodeString.java:120-127 | every number in `int` range parses back from its decimal rendering |
| TimecodeStrings.ParseInputByUnits | src/com/transgressoft/timecode/TimecodeString.java:86-92 | each field is the value of its two-digit group, so each lies in 0..99 |
| TimecodeStrings.OfFrameCount | src/com/transgressoft/timecode/TimecodeString.java:80-84 | a bad rate name fails with INVALID_FRAME_RATE; with a good one, a negative count fails with FRAME_COUNT_LESS_0 and a count at or over the limit with FRAME_COUNT_GREATER_LIMIT, messages included; otherwise the count in frame-count form, with its counted label |
| TimecodeStrings.OfUnits | src/com/transgressoft/timecode/TimecodeString.java:106-110 | a bad rate name fails with INVALID_FRAME_RATE; success exactly for a rate name and valid values, keeping the fields and their encoding, in units form |
| TimecodeStrings.OfValue | src/com/transgressoft/timecode/TimecodeString.java:54-69 | a malformed value fails with INVALID_INPUT_FORMAT before the rate is looked at; a count too large for an `int` fails in `Integer.valueOf`; otherwise the count or units constructor with the parsed numbers |
| TimecodeStrings.GetOppositeRepresentation | src/com/transgressoft/timecode/TimecodeString.java:120-127 | for units input, the count string, which parses back to the count; for count input with a valid label, a units form whose groups are the fields and whose last separator is the class's |
| TimecodeStrings.CountStringRoundTrip | src/com/transgressoft/timecode/TimecodeString.java:54-127 | a count in range answers with a units string, which answers with the original count string |
| TimecodeStrings.UnitsStringRoundTrip | src/com/transgressoft/timecode/TimecodeString.java:54-127 | a units string for a counted label of the class, with the class's separator and a count in range, answers with its count, which answers with the original string |
| AcceptanceExamples.Fps25UnitsCase | test/com/transgressoft/timecode/AcceptanceTest.java:46 | ("25fps", "00:00:51:21") answers "1296" |
| AcceptanceExamples.Df30UnitsCase | test/com/transgressoft/timecode/AcceptanceTest.java:77 | ("30DF", "00:14:18;26") answers "25740" |
| AcceptanceExamples.Fps25CountCase | test/com/transgressoft/timecode/AcceptanceTest.java:64 | ("25fps", "173161") answers "01:55:26:11" |
| AcceptanceExamples.Df30FirstDropCase | test/com/transgressoft/timecode/AcceptanceTest.java:85 | ("30DF", "1800") answers "00:01:00;02" |
| AcceptanceExamples.Df30CountCase | test/com/transgressoft/timecode/AcceptanceTest.java:90 | ("30DF", "571") answers "00:00:19;01" |
| AcceptanceExamples.Df30LateCountCase | test/com/transgressoft/timecode/AcceptanceTest.java:93 | ("30DF", "1958418") answers "18:09:06;00" |
| AcceptanceExamples.Df30AdditionCase | test/com/transgressoft/timecode/df30/Df30TimecodeTest.java:120-129 | 22:59:59;24 + 00:00:00;10 is 23:00:00;04 |
| AcceptanceExamples.Df30SubtractionUnderZeroCase | test/com/transgressoft/timecode/df30/Df30TimecodeTest.java:154-170 | 07:50:00;17 − 11:50:00;17 leaves (−4, 0, 0, 0) with count −431568 and no exception |
| AcceptanceExamples.Fps25ChainedSubtractionCase | test/com/transgressoft/timecode/fps25/Fps25TimecodeTest.java:170-180 | 05:05:15:20 − 23:59:59:24 leaves (−18, 5, 15, 21) with count −1702104 and no exception; subtracting again throws RESULT_LESSER_LIMIT over the committed state (−41, −54, −44, −3) with count −3862103, whose units are truncated toward zero |

## Left out

- The command-line runner (`TimecodeStringRunner`): argument parsing, file reading and writing, printing.
  This is I/O around `TimecodeString.of(...).getOppositeRepresentation()`, which is modelled.
- `TimecodeException`'s constructors and cause chaining. Exceptions are values: the error case, plus the Java class that carries it.
- Object identity and in-place mutation. `add` and `subtract` return `this` in Java; here they return the new state, together with the exception that follows.
- `Timecodes.SubtractSelf`: covers an argument that is a distinct object with equal values. Aliasing is not modelled in general, so `x.subtract(x)` on one object is stated separately in `Timecodes.SubtractAliased`.
  There the argument's hours are read after `countUnits` has overwritten them with 24, so the result has hours h − 24, not 0.
- The getters, which return the fields.
- 32-bit overflow of `frameCount`: counts are unbounded integers.
  - An operation on two in-range timecodes stays far inside `int` range.
  - Only long chains of failed operations could wrap.
  - `Math.abs(Integer.MIN_VALUE)` is unreachable for the same reason.
- The static scratch fields of `TimecodeString` (`hours`, …, `frameCount`, `clearStaticValues`).
  Their values pass between calls only under concurrent use, and concurrency is not modelled.
  The model passes the parsed numbers directly.
- The drop-frame private constructor calls `countFrames` three times, then overwrites `frameCount` with `frameDropCalculation`.
  The model computes only the final value.
- `TimecodeStrings.ParseInputByUnits`: requires a string in units form. Its only caller classifies the value first, and the exceptions that other input would raise in Java are not modelled.
- Null arguments (`fromString(null)`, a null value string), which end in a `NullPointerException`.
- `TimecodeStrings.IntegerValueOf`: models ASCII digits only. `Integer.valueOf` also accepts other Unicode decimal digits.
  On the path through `of(rate, value)` this makes no difference, because the value has already matched the ASCII-only `\d+`.
- `FrameRateType.FromString`: `equalsIgnoreCase` is modelled only for the characters that upper- or lower-case to one of the letters of a nominal rate name.
  These are the ASCII letters and the long s, so the comparison with a rate name is exact.
- `TimecodeBase.HashCode`: its own contract only bounds the result. The full value is stated in `TimecodeBase.HashCodePolynomial`.
- `Timecodes.Subtract`: for a difference ≤ 0, its own contract states the count, the exception and the hours, and equates the result with `TimecodeBase.Subtraction` or `Df30Timecode.Subtraction`.
  The minutes, seconds and frames are stated there (nominal rates, every difference) and in `Df30Timecode.WrapIsNominalNext` (drop-frame, a difference in (−limit, 0] only).
- `Df30Timecode.Subtraction`: for a difference of −limit or less, the minutes, seconds and frames are not characterised.
  The decoder then runs on a negative count, where its reverse calculation mixes truncated quotients of opposite sign, and RESULT_LESSER_LIMIT is thrown over that state anyway.
- `TimecodeBase.Addition`: at drop-frame, a negative sum's label is not characterised, for the same reason. A sum is negative only when a receiver already holds the negative count that a subtraction going below zero left.
- `Timecodes.Add`: as for `TimecodeBase.Addition`, whose result it equals.
- `TimecodeStrings.UnitsStringRoundTrip`: requires the label's count to be below the limit, which excludes only drop-frame 23:59:59;29.
  Its count is the limit, which `of(frameCount)` refuses (`Df30Timecode.LastLabelAtLimit`).
- Tests that disagree with the code are not followed:
  - `TimecodeStringTests` expects an `UnsupportedOperationException` from `of("24fps", 12345)` and `of("30fps", 12345)`. The 24 and 30 fps factories build those timecodes.
  - The drop-frame limit's comment names 23:59:59;28 as the largest timecode. The code also accepts 23:59:59;29.
