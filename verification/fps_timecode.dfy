/**
 The three nominal-rate classes (24, 25 and 30 fps). They differ only in
 their constants, which `FrameRateType.FrameMax` and `FrameCountLimit` hold,
 so one module models all three, the rate standing for the class.
 */
module FpsTimecode {
  import opened JavaText
  import opened TimecodeException
  import opened FrameRateType
  import opened TimecodeCodec
  import opened TimecodeBase

  /**
   The message Guava's `checkArgument` builds from a template without
   placeholders and four arguments: the template, then the arguments in
   brackets, separated by commas.
   */
  function InvalidValuesMessage(hours: int, minutes: int, seconds: int, frames: int): string {
    ErrorMessage(InvalidTimecode) + " [" + IntToString(hours) + ", " + IntToString(minutes) + ", "
      + IntToString(seconds) + ", " + IntToString(frames) + "]"
  }

  /**
   `of(hours, minutes, seconds, frames)`: refuses a label that fails the
   rate's validation, naming the four values; otherwise keeps the fields as
   given and counts their frames.
   */
  function OfUnits(rate: FrameRate, hours: int, minutes: int, seconds: int, frames: int): (r: Result<Timecode>)
    requires rate != Df30
    ensures r.Success? <==> AreValidValues(rate, hours, minutes, seconds, frames)
    ensures r.Failure? ==> r.error == IllegalArgument(InvalidTimecode, InvalidValuesMessage(hours, minutes, seconds, frames))
    ensures r.Success? ==> r.value.rate == rate && r.value.Label() == Units(hours, minutes, seconds, frames)
    ensures r.Success? ==> 0 <= r.value.frameCount < FrameCountLimit(rate)
    ensures r.Success? ==> Decode(rate, r.value.frameCount) == r.value.Label()
  {
    var u := Units(hours, minutes, seconds, frames);
    if !AreValidValues(rate, hours, minutes, seconds, frames) then
      Failure(IllegalArgument(InvalidTimecode, InvalidValuesMessage(hours, minutes, seconds, frames)))
    else
      NominalUnitsRoundTrip(rate, u);
      Success(Timecode(rate, hours, minutes, seconds, frames, CountFrames(0, FrameMax(rate), u)))
  }

  /** `of(frameCount)`: the base class's frame-count constructor, then `countUnits`. */
  function OfFrameCount(rate: FrameRate, frameCount: int): (r: Result<Timecode>)
    requires rate != Df30
    ensures r.Success? <==> 0 <= frameCount < FrameCountLimit(rate)
    ensures r.Success? ==> r.value.rate == rate && r.value.frameCount == frameCount
    ensures r.Success? ==> Counted(rate, r.value.Label()) && Encode(rate, r.value.Label()) == frameCount
  {
    FromFrameCount(rate, frameCount)
  }

  /** `add`: a timecode of another class is refused before anything changes; otherwise the base `addition`. */
  function Add(t: Timecode, other: Timecode): (r: Mutation)
    requires t.rate != Df30
    ensures other.rate != t.rate ==> r.state == t && r.thrown == Some(InvalidAddition)
    ensures other.rate == t.rate ==> r == Addition(t, other)
  {
    if other.rate != t.rate then Mutation(t, Some(InvalidAddition)) else Addition(t, other)
  }

  /** `subtract`: a timecode of another class is refused before anything changes; otherwise the base `subtraction`. */
  function Subtract(t: Timecode, other: Timecode): (r: Mutation)
    requires t.rate != Df30
    ensures other.rate != t.rate ==> r.state == t && r.thrown == Some(InvalidSubtraction)
    ensures other.rate == t.rate ==> r == Subtraction(t, other)
  {
    if other.rate != t.rate then Mutation(t, Some(InvalidSubtraction)) else Subtraction(t, other)
  }

  /** The last label of the day encodes to the limit less one, and the limit is refused as a frame count. */
  lemma LastLabel(rate: FrameRate)
    requires rate != Df30
    ensures var last := OfUnits(rate, 23, 59, 59, FrameMax(rate) - 1);
      last.Success? && last.value.frameCount == FrameCountLimit(rate) - 1
    ensures OfFrameCount(rate, FrameCountLimit(rate)).Failure?
  {
  }

  /** The refusal of 12:50:30:30 at 30 fps names the four values. */
  lemma InvalidValuesNamed()
    ensures OfUnits(Fps30, 12, 50, 30, 30)
      == Failure(IllegalArgument(InvalidTimecode, "Invalid timecode value [12, 50, 30, 30]"))
  {
    assert NatToString(1) == "1" && NatToString(5) == "5" && NatToString(3) == "3";
    assert NatToString(12) == NatToString(1) + [DigitChar(2)] == "12";
    assert NatToString(50) == NatToString(5) + [DigitChar(0)] == "50";
    assert NatToString(30) == NatToString(3) + [DigitChar(0)] == "30";
  }
}
