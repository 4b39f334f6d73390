/**
 The drop-frame class (29.97 fps, "30DF"): its constructors, which check
 their own arguments, its `subtraction`, which after the wrap-around decoding
 steps one frame on, and its rendering with ';' before the frames.
 */
module Df30Timecode {
  import opened JavaInt
  import opened JavaText
  import opened TimecodeException
  import opened FrameRateType
  import opened TimecodeCodec
  import opened TimecodeBase

  /** The nominal 30 fps count of a label: every label counted, none dropped. */
  function Nominal30(u: Units): int {
    CountFrames(0, 30, u)
  }

  /** Facts about the encoding of a label that validation accepts, dropped or not. */
  lemma ValidLabelEncoding(u: Units)
    ensures Valid(Df30, u) ==> 0 <= Encode(Df30, u) <= FrameCountLimit(Df30)
    ensures Valid(Df30, u) && !IsDroppedLabel(u) ==> Decode(Df30, Encode(Df30, u)) == u
    ensures Valid(Df30, u) && IsDroppedLabel(u) ==>
      Decode(Df30, Encode(Df30, u)) == Units(u.hours, u.minutes - 1, 59, 28 + u.frames)
  {
    if Valid(Df30, u) {
      if IsDroppedLabel(u) {
        DroppedLabelAlias(u);
        DropFrameUnitsRoundTrip(Units(u.hours, u.minutes - 1, 59, 28 + u.frames));
      } else {
        DropFrameUnitsRoundTrip(u);
      }
    }
  }

  /**
   `of(hours, minutes, seconds, frames)`: refuses a label that fails drop-frame
   validation (the message names no values); otherwise keeps the fields as
   given, dropped labels included, and computes the drop-frame count.
   */
  function OfUnits(hours: int, minutes: int, seconds: int, frames: int): (r: Result<Timecode>)
    ensures r.Success? <==> AreValidValues(Df30, hours, minutes, seconds, frames)
    ensures r.Failure? ==> r.error == IllegalArgument(InvalidTimecode, ErrorMessage(InvalidTimecode))
    ensures r.Success? ==> r.value.rate == Df30 && r.value.Label() == Units(hours, minutes, seconds, frames)
    ensures r.Success? ==> 0 <= r.value.frameCount <= FrameCountLimit(Df30)
    ensures r.Success? && !IsDroppedLabel(r.value.Label()) ==> Decode(Df30, r.value.frameCount) == r.value.Label()
    ensures r.Success? && IsDroppedLabel(r.value.Label()) ==>
      Decode(Df30, r.value.frameCount) == Units(hours, minutes - 1, 59, 28 + frames)
  {
    var u := Units(hours, minutes, seconds, frames);
    if !AreValidValues(Df30, hours, minutes, seconds, frames) then
      Failure(IllegalArgument(InvalidTimecode, ErrorMessage(InvalidTimecode)))
    else
      ValidLabelEncoding(u);
      Success(Timecode(Df30, hours, minutes, seconds, frames, FrameDropCalculation(u)))
  }

  /** `of(frameCount)`: its own range checks, with the messages of the base constructor, then decoding. */
  function OfFrameCount(frameCount: int): (r: Result<Timecode>)
    ensures r == FromFrameCount(Df30, frameCount)
  {
    if frameCount < 0 then
      Failure(IllegalArgument(FrameCountLess0, ErrorMessage(FrameCountLess0)))
    else if frameCount >= 2589407 then
      Failure(IllegalArgument(FrameCountGreaterLimit, ErrorMessage(FrameCountGreaterLimit) + " " + IntToString(2589407)))
    else
      Success(Decoded(Df30, frameCount))
  }

  /** The last label of the day is accepted though its count is the limit, which `of(frameCount)` refuses. */
  lemma LastLabelAtLimit()
    ensures var last := OfUnits(23, 59, 59, 29);
      last.Success? && last.value.frameCount == FrameCountLimit(Df30)
    ensures OfUnits(23, 59, 59, 28).value.frameCount == FrameCountLimit(Df30) - 1
    ensures OfFrameCount(FrameCountLimit(Df30)).Failure?
  {
    DropFrameLimitLabel();
  }

  /** `carriage`: frames back to 0 and one second on, the carry running into minutes and hours. */
  function Carriage(u: Units): (r: Units)
    ensures r.frames == 0 && Nominal30(r) == Nominal30(u) - u.frames + 30
    ensures 0 <= u.minutes < 60 && 0 <= u.seconds < 60 ==> 0 <= r.minutes < 60 && 0 <= r.seconds < 60
  {
    if u.seconds + 1 == 60 then
      if u.minutes + 1 == 60 then Units(u.hours + 1, 0, 0, 0)
      else Units(u.hours, u.minutes + 1, 0, 0)
    else
      Units(u.hours, u.minutes, u.seconds + 1, 0)
  }

  /**
   `frameAdditionCalculation`: one frame on. Both of its branches step the
   nominal 30 fps count by exactly one, so dropped labels are not skipped.
   */
  function FrameAdditionCalculation(u: Units): (r: Units)
    ensures u.frames != 30 ==> Nominal30(r) == Nominal30(u) + 1
    ensures 0 <= u.minutes < 60 && 0 <= u.seconds < 60 && 0 <= u.frames < 30 ==>
      0 <= r.minutes < 60 && 0 <= r.seconds < 60 && 0 <= r.frames < 30
  {
    var stepped :=
      if Rem(u.minutes, 10) == 0 && u.seconds != 0 && (u.frames == 29 || u.frames == 30) then Carriage(u)
      else u.(frames := u.frames + 1);
    if stepped.frames == 30 then Carriage(stepped) else stepped
  }

  /**
   The drop-frame `subtraction`. A positive difference is decoded; a
   difference of zero or less takes the label of limit + difference, steps it
   one frame on, and sets hours to the receiver's hours less the other's. Only
   then is |difference| compared with the limit.
   */
  function Subtraction(t: Timecode, other: Timecode): (r: Mutation)
    requires t.rate == Df30
    ensures r.state.rate == t.rate && r.state.frameCount == t.frameCount - other.frameCount
    ensures r.thrown.Some? <==> Abs(t.frameCount - other.frameCount) >= FrameCountLimit(Df30)
    ensures r.thrown.Some? ==> r.thrown.value == ResultLesserLimit
    ensures 0 < t.frameCount - other.frameCount < FrameCountLimit(Df30) ==>
      Counted(Df30, r.state.Label()) && Encode(Df30, r.state.Label()) == r.state.frameCount
    ensures t.frameCount - other.frameCount <= 0 ==> r.state.hours == t.hours - other.hours
    ensures t.frameCount - other.frameCount > 0 ==>
      Counted(Df30, r.state.Label())
        && Encode(Df30, r.state.Label()) == r.state.frameCount % (FrameCountLimit(Df30) + 1)
  {
    var difference := t.frameCount - other.frameCount;
    DecodeAnyCount(Df30, difference);
    var state :=
      if difference > 0 then
        Decoded(t.rate, difference)
      else
        var next := FrameAdditionCalculation(Decode(Df30, FrameCountLimit(Df30) + difference));
        Timecode(t.rate, t.hours - other.hours, next.minutes, next.seconds, next.frames, difference);
    CountRoundTripIfInRange(t.rate, difference);
    Mutation(state, if Abs(difference) >= FrameCountLimit(Df30) then Some(ResultLesserLimit) else None)
  }

  /** Minutes, seconds and frames agree. */
  predicate SameClockFace(u: Units, v: Units) {
    u.minutes == v.minutes && u.seconds == v.seconds && u.frames == v.frames
  }

  /** What `frameAdditionCalculation` does to an in-range label, case by case. */
  lemma FrameAdditionCases(u: Units)
    requires 0 <= u.minutes < 60 && 0 <= u.seconds < 60 && 0 <= u.frames < 30
    ensures FrameAdditionCalculation(u) ==
      if u.frames < 29 then u.(frames := u.frames + 1)
      else if u.seconds < 59 then Units(u.hours, u.minutes, u.seconds + 1, 0)
      else if u.minutes < 59 then Units(u.hours, u.minutes + 1, 0, 0)
      else Units(u.hours + 1, 0, 0, 0)
  {
  }

  /** Stepping the label of a nominal 30 fps count one frame on gives the label of the next count, hours aside. */
  lemma FrameAdditionIsNominalNext(t: int)
    requires t >= 0
    ensures SameClockFace(FrameAdditionCalculation(Units30(t)), Units30(t + 1))
  {
    var totalMinutes, w := t / 1800, t % 1800;
    Clock30(totalMinutes, w);
    NextOnClock(totalMinutes, w);
  }

  lemma NextOnClock(totalMinutes: int, w: int)
    requires totalMinutes >= 0 && 0 <= w < 1800
    ensures SameClockFace(FrameAdditionCalculation(Units(totalMinutes / 60 % 24, totalMinutes % 60, w / 30, w % 30)),
                          Units30(1800 * totalMinutes + w + 1))
  {
    var u := Units(totalMinutes / 60 % 24, totalMinutes % 60, w / 30, w % 30);
    FrameAdditionCases(u);
    if w % 30 < 29 {
      NextWithinSecond(totalMinutes, w);
    } else if w / 30 < 59 {
      NextSecond(totalMinutes, w);
    } else {
      NextMinute(totalMinutes);
    }
  }

  lemma NextWithinSecond(totalMinutes: int, w: int)
    requires totalMinutes >= 0 && 0 <= w < 1800 && w % 30 < 29
    ensures var v := Units30(1800 * totalMinutes + w + 1);
      v.minutes == totalMinutes % 60 && v.seconds == w / 30 && v.frames == w % 30 + 1
  {
    Clock30(totalMinutes, w + 1);
    DivModBy(w + 1, 30, w / 30, w % 30 + 1);
  }

  lemma NextSecond(totalMinutes: int, w: int)
    requires totalMinutes >= 0 && 0 <= w < 1800 && w % 30 == 29 && w / 30 < 59
    ensures var v := Units30(1800 * totalMinutes + w + 1);
      v.minutes == totalMinutes % 60 && v.seconds == w / 30 + 1 && v.frames == 0
  {
    Clock30(totalMinutes, w + 1);
    DivModBy(w + 1, 30, w / 30 + 1, 0);
  }

  lemma NextMinute(totalMinutes: int)
    requires totalMinutes >= 0
    ensures var v := Units30(1800 * totalMinutes + 1799 + 1);
      v.minutes == (if totalMinutes % 60 == 59 then 0 else totalMinutes % 60 + 1) && v.seconds == 0 && v.frames == 0
  {
    assert 1800 * totalMinutes + 1799 + 1 == 1800 * (totalMinutes + 1) + 0;
    Clock30(totalMinutes + 1, 0);
    if totalMinutes % 60 == 59 {
      DivModBy(totalMinutes + 1, 60, totalMinutes / 60 + 1, 0);
    } else {
      DivModBy(totalMinutes + 1, 60, totalMinutes / 60, totalMinutes % 60 + 1);
    }
  }

  /** Two frames on from a dropped label is the first counted label of that minute. */
  lemma PastDroppedLabel(x: int)
    requires x >= 0 && IsDroppedLabel(Units30(x))
    ensures var u, v := Units30(x), Units30(x + 2);
      v.minutes == u.minutes && v.seconds == 0 && v.frames == u.frames + 2
  {
    var totalMinutes, w := x / 1800, x % 1800;
    Clock30(totalMinutes, w);
    assert x + 2 == 1800 * totalMinutes + (w + 2);
    DroppedOnClock(totalMinutes, w);
  }

  lemma DroppedOnClock(totalMinutes: int, w: int)
    requires totalMinutes >= 0 && 0 <= w < 1800 && w / 30 == 0 && w % 30 < 2
    ensures Units30(1800 * totalMinutes + (w + 2)) == Units(totalMinutes / 60 % 24, totalMinutes % 60, 0, w + 2)
  {
    Clock30(totalMinutes, w + 2);
    DivModBy(w + 2, 30, 0, w + 2);
  }

  /**
   The wrap-around branch of the drop-frame `subtraction`: its minutes,
   seconds and frames are the nominal successor of the label of
   limit + difference. That is the label of the next count unless it is a
   dropped label, which the drop-frame count would skip to frame 2.
   */
  lemma WrapIsNominalNext(t: Timecode, other: Timecode)
    requires t.rate == Df30
    requires -FrameCountLimit(Df30) < t.frameCount - other.frameCount <= 0
    ensures FollowsCount(Subtraction(t, other).state.Label(), FrameCountLimit(Df30) + t.frameCount - other.frameCount)
  {
    var n := FrameCountLimit(Df30) + t.frameCount - other.frameCount;
    WrapState(t, other);
    StepAfterDecode(n);
    FollowsCountOnClockFace(FrameAdditionCalculation(Decode(Df30, n)), Subtraction(t, other).state.Label(), n);
  }

  /**
   Whether `u`'s minutes, seconds and frames are the nominal successor of the
   label of drop-frame count `n`, and relate to the label of `n + 1` as
   that successor does: the same clock face, or, on a dropped label, two
   frames short of it.
   */
  predicate FollowsCount(u: Units, n: int)
    requires n >= 0
  {
    var exact := Decode(Df30, n + 1);
    && SameClockFace(u, Units30(ReverseDropFrame(n) + 1))
    && (!IsDroppedLabel(u) ==> SameClockFace(u, exact))
    && (IsDroppedLabel(u) ==> exact.minutes == u.minutes && exact.seconds == 0 && exact.frames == u.frames + 2)
  }

  /** `FollowsCount` depends only on the clock face. */
  lemma FollowsCountOnClockFace(u: Units, v: Units, n: int)
    requires n >= 0 && FollowsCount(u, n) && SameClockFace(u, v)
    ensures FollowsCount(v, n)
  {
    assert IsDroppedLabel(u) == IsDroppedLabel(v);
  }

  /** The state the wrap-around branch leaves: hours subtracted, the rest one frame past the label of limit + difference. */
  lemma WrapState(t: Timecode, other: Timecode)
    requires t.rate == Df30 && t.frameCount - other.frameCount <= 0
    ensures var next := FrameAdditionCalculation(Decode(Df30, FrameCountLimit(Df30) + t.frameCount - other.frameCount));
      Subtraction(t, other).state.Label() == Units(t.hours - other.hours, next.minutes, next.seconds, next.frames)
  {
  }

  /** Stepping the label of a drop-frame count one frame on, against the label of the next count. */
  lemma StepAfterDecode(n: int)
    requires n >= 0
    ensures FollowsCount(FrameAdditionCalculation(Decode(Df30, n)), n)
  {
    var position := ReverseDropFrame(n);
    PositionNonNegative(n);
    assert Decode(Df30, n) == Units30(position);
    FrameAdditionIsNominalNext(position);
    NextCountLabel(n);
  }

  lemma PositionNonNegative(n: int)
    requires n >= 0
    ensures ReverseDropFrame(n) >= 0
  {
    var d, k, w := DropFrameStructure(n);
  }

  /** The label of the next drop-frame count: one frame on, or three past a dropped label. */
  lemma NextCountLabel(n: int)
    requires n >= 0
    ensures var following, exact := Units30(ReverseDropFrame(n) + 1), Decode(Df30, n + 1);
      && (!IsDroppedLabel(following) ==> exact == following)
      && (IsDroppedLabel(following) ==>
            exact.minutes == following.minutes && exact.seconds == 0 && exact.frames == following.frames + 2)
  {
    var position := ReverseDropFrame(n);
    PositionNonNegative(n);
    DropFrameNext(n);
    if IsDroppedLabel(Units30(position + 1)) {
      PastDroppedLabel(position + 1);
      assert ReverseDropFrame(n + 1) == position + 1 + 2;
    }
  }

  /** The timecode of count 0 less that of count 2587608 (00:00:00;00 less 23:58:59;28) leaves the dropped label mm:ss;ff = 01:00;00, where the count 1800 reads 00:01:00;02. */
  lemma WrapLandsOnDroppedLabel()
    ensures var zero, other := Decoded(Df30, 0), Decoded(Df30, 2587608);
      && zero.Label() == Units(0, 0, 0, 0)
      && other.Label() == Units(23, 58, 59, 28)
      && Subtraction(zero, other) == Mutation(Timecode(Df30, -23, 1, 0, 0, -2587608), None)
      && IsDroppedLabel(Units(-23, 1, 0, 0))
      && Decode(Df30, 1800) == Units(0, 1, 0, 2)
  {
    DecodeZero();
    DecodeOther();
    DecodeLastOfMinute();
    DecodeFirstOfMinute();
    var zero, other := Decoded(Df30, 0), Decoded(Df30, 2587608);
    assert FrameCountLimit(Df30) + zero.frameCount - other.frameCount == 1799;
    assert FrameAdditionCalculation(Units(0, 0, 59, 29)) == Units(0, 1, 0, 0);
  }

  lemma DecodeZero()
    ensures Decode(Df30, 0) == Units(0, 0, 0, 0)
  {
    Clock30(0, 0);
  }

  lemma DecodeOther()
    ensures Decode(Df30, 2587608) == Units(23, 58, 59, 28)
  {
    DivModBy(2587608, 17982, 143, 16182);
    DivModBy(16180, 1798, 8, 1796);
    assert ReverseDropFrame(2587608) == 1800 * 1438 + 1798;
    Clock30(1438, 1798);
  }

  lemma DecodeLastOfMinute()
    ensures Decode(Df30, 1799) == Units(0, 0, 59, 29)
  {
    assert ReverseDropFrame(1799) == 1799;
    Clock30(0, 1799);
  }

  lemma DecodeFirstOfMinute()
    ensures Decode(Df30, 1800) == Units(0, 1, 0, 2)
  {
    assert ReverseDropFrame(1800) == 1800 + 2;
    Clock30(1, 2);
  }

  /** `add`: a timecode of another class is refused before anything changes; otherwise the base `addition`. */
  function Add(t: Timecode, other: Timecode): (r: Mutation)
    requires t.rate == Df30
    ensures other.rate != Df30 ==> r.state == t && r.thrown == Some(InvalidAddition)
    ensures other.rate == Df30 ==> r == Addition(t, other)
  {
    if other.rate != Df30 then Mutation(t, Some(InvalidAddition)) else Addition(t, other)
  }

  /** `subtract`: a timecode of another class is refused before anything changes; otherwise this class's `subtraction`. */
  function Subtract(t: Timecode, other: Timecode): (r: Mutation)
    requires t.rate == Df30
    ensures other.rate != Df30 ==> r.state == t && r.thrown == Some(InvalidSubtraction)
    ensures other.rate == Df30 ==> r == Subtraction(t, other)
  {
    if other.rate != Df30 then Mutation(t, Some(InvalidSubtraction)) else Subtraction(t, other)
  }

  /** `getStringRepresentation`: like the base class, but ';' before the frames. */
  function Representation(t: Timecode): string {
    Render(t.Label(), ';')
  }
}
