/**
 The `Timecode` interface: `add`, `subtract` and `getStringRepresentation`
 dispatched on the receiver's class, and `toString`, which the base class
 builds from the dispatched representation.
 */
module Timecodes {
  import opened JavaInt
  import opened JavaText
  import opened TimecodeException
  import opened FrameRateType
  import opened TimecodeCodec
  import opened TimecodeBase
  import FpsTimecode
  import Df30Timecode

  /**
   `add`: refused with INVALID_ADDITION, the receiver untouched, when the
   classes differ; otherwise the sum is committed and RESULT_GREATER_LIMIT is
   thrown exactly when it reaches the limit.
   */
  function Add(t: Timecode, other: Timecode): (r: Mutation)
    ensures r.thrown == Some(InvalidAddition) <==> other.rate != t.rate
    ensures other.rate != t.rate ==> r.state == t
    ensures r.thrown == Some(ResultGreaterLimit) <==>
      other.rate == t.rate && t.frameCount + other.frameCount >= FrameCountLimit(t.rate)
    ensures other.rate == t.rate ==> r.state.rate == t.rate && r.state.frameCount == t.frameCount + other.frameCount
    ensures r.thrown == None && t.frameCount + other.frameCount >= 0 ==>
      Counted(t.rate, r.state.Label()) && Encode(t.rate, r.state.Label()) == r.state.frameCount
    ensures other.rate == t.rate ==> r == TimecodeBase.Addition(t, other)
  {
    if t.rate == Df30 then Df30Timecode.Add(t, other) else FpsTimecode.Add(t, other)
  }

  /**
   `subtract`: refused with INVALID_SUBTRACTION, the receiver untouched, when
   the classes differ; otherwise the difference is committed and
   RESULT_LESSER_LIMIT is thrown exactly when its magnitude reaches the limit.
   */
  function Subtract(t: Timecode, other: Timecode): (r: Mutation)
    ensures r.thrown == Some(InvalidSubtraction) <==> other.rate != t.rate
    ensures other.rate != t.rate ==> r.state == t
    ensures r.thrown == Some(ResultLesserLimit) <==>
      other.rate == t.rate && Abs(t.frameCount - other.frameCount) >= FrameCountLimit(t.rate)
    ensures other.rate == t.rate ==> r.state.rate == t.rate && r.state.frameCount == t.frameCount - other.frameCount
    ensures r.thrown == None && t.frameCount - other.frameCount > 0 ==>
      Counted(t.rate, r.state.Label()) && Encode(t.rate, r.state.Label()) == r.state.frameCount
    ensures other.rate == t.rate && t.frameCount - other.frameCount <= 0 ==> r.state.hours == t.hours - other.hours
    ensures other.rate == t.rate && t.rate != Df30 ==> r == TimecodeBase.Subtraction(t, other)
    ensures other.rate == t.rate && t.rate == Df30 ==> r == Df30Timecode.Subtraction(t, other)
  {
    if t.rate == Df30 then Df30Timecode.Subtract(t, other) else FpsTimecode.Subtract(t, other)
  }

  /** The separator the class puts before the frames. */
  function FrameSeparator(rate: FrameRate): char {
    if rate == Df30 then ';' else ':'
  }

  /**
   `getStringRepresentation`: with every field in 0..99, eleven characters,
   the groups reading back as the fields, ':' between them except the class's
   own separator before the frames.
   */
  function GetStringRepresentation(t: Timecode): (s: string)
    ensures 0 <= t.hours < 100 && 0 <= t.minutes < 100 && 0 <= t.seconds < 100 && 0 <= t.frames < 100 ==>
      && |s| == 11 && s[2] == ':' && s[5] == ':' && s[8] == FrameSeparator(t.rate)
      && AllDigits(s[0..2]) && AllDigits(s[3..5]) && AllDigits(s[6..8]) && AllDigits(s[9..11])
      && DigitsValue(s[0..2]) == t.hours && DigitsValue(s[3..5]) == t.minutes
      && DigitsValue(s[6..8]) == t.seconds && DigitsValue(s[9..11]) == t.frames
  {
    if t.rate == Df30 then Df30Timecode.Representation(t) else BaseRepresentation(t)
  }

  /**
   `toString`: "Timecode[", the representation, '/', the frame count, ']'.
   With fields in 0..99 and a non-negative count, the representation fills
   positions 9..19 and the digits between '/' and ']' read back as the count.
   */
  function ToString(t: Timecode): (s: string)
    ensures |s| >= 11 && s[..9] == "Timecode[" && s[|s| - 1] == ']'
    ensures 0 <= t.hours < 100 && 0 <= t.minutes < 100 && 0 <= t.seconds < 100 && 0 <= t.frames < 100
            && t.frameCount >= 0 ==>
      && |s| >= 23 && s[9..20] == GetStringRepresentation(t) && s[20] == '/'
      && AllDigits(s[21..|s| - 1]) && DigitsValue(s[21..|s| - 1]) == t.frameCount
  {
    var representation := GetStringRepresentation(t);
    var count := IntToString(t.frameCount);
    Enclosed(representation, count);
    DigitsValueOfIntToString(t.frameCount);
    "Timecode[" + representation + "/" + count + "]"
  }

  /** Where the pieces of `toString` sit in the result. */
  lemma Enclosed(representation: string, count: string)
    ensures var s := "Timecode[" + representation + "/" + count + "]";
      && |s| == 11 + |representation| + |count| && s[..9] == "Timecode[" && s[|s| - 1] == ']'
      && s[9..9 + |representation|] == representation && s[9 + |representation|] == '/'
      && s[10 + |representation|..|s| - 1] == count
  {
  }

  /**
   Subtracting an equal but distinct timecode leaves all five fields zero, at
   every rate, without an exception.
   */
  lemma SubtractSelf(t: Timecode)
    ensures Subtract(t, t) == Mutation(Timecode(t.rate, 0, 0, 0, 0, 0), None)
  {
    if t.rate == Df30 {
      DropFrameLimitLabel();
      assert Df30Timecode.FrameAdditionCalculation(Units(23, 59, 59, 29)) == Units(24, 0, 0, 0);
    } else {
      NominalDecodeLimit(t.rate);
    }
  }

  /**
   `x.subtract(x)` on one object. The difference is 0, so the receiver is set
   to the label of the limit, stepped one frame on at drop-frame: hours 24
   either way. Only then are the argument's hours read, and the argument is the
   receiver, so they read 24: it is passed here as the receiver with hours 24.
   The result keeps hours h - 24 instead of 0.
   */
  lemma SubtractAliased(t: Timecode)
    ensures Subtract(t, t.(hours := 24)) == Mutation(Timecode(t.rate, t.hours - 24, 0, 0, 0, 0), None)
  {
    if t.rate == Df30 {
      DropFrameLimitLabel();
      assert Df30Timecode.FrameAdditionCalculation(Units(23, 59, 59, 29)) == Units(24, 0, 0, 0);
    } else {
      NominalDecodeLimit(t.rate);
    }
  }

  /** Rate identity is the class: a 30 fps and a drop-frame timecode are never added or subtracted. */
  lemma MixedClassesRefused(a: Timecode, b: Timecode)
    requires a.rate == Fps30 && b.rate == Df30
    ensures Add(a, b) == Mutation(a, Some(InvalidAddition)) && Add(b, a) == Mutation(b, Some(InvalidAddition))
    ensures Subtract(a, b) == Mutation(a, Some(InvalidSubtraction))
    ensures Subtract(b, a) == Mutation(b, Some(InvalidSubtraction))
  {
  }
}
