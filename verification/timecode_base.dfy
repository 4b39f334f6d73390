/**
 The state and the shared behaviour of every timecode class: the five `int`
 fields, the frame-count constructor, the in-place `addition` and
 `subtraction` (which commit their result before they check it), equality
 and hash code over the fields, and the colon-separated rendering.

 A Java timecode object is modelled as an immutable `Timecode` value whose
 `rate` stands for its concrete class; an in-place operation returns the
 receiver's new state together with the exception it then threw, if any.
 */
module TimecodeBase {
  import opened JavaInt
  import opened JavaText
  import opened TimecodeException
  import opened FrameRateType
  import opened TimecodeCodec

  datatype Timecode = Timecode(rate: FrameRate, hours: int, minutes: int, seconds: int, frames: int, frameCount: int)
  {
    /** The unit fields, as a label. */
    function Label(): Units {
      Units(hours, minutes, seconds, frames)
    }
  }

  /** The receiver after an in-place operation, and the `TimecodeException` the operation then threw, if any. */
  datatype Mutation = Mutation(state: Timecode, thrown: Option<ErrorCase>)

  /** The object `countUnits(frameCount)` leaves: the fields decoded from the count at the class's rate. */
  function Decoded(rate: FrameRate, frameCount: int): Timecode {
    var u := Decode(rate, frameCount);
    Timecode(rate, u.hours, u.minutes, u.seconds, u.frames, frameCount)
  }

  /**
   The frame-count constructor (followed by the class's `countUnits`): a
   negative count and a count at or over the limit are refused with an
   `IllegalArgumentException`; any other count gives the label it decodes to.
   */
  function FromFrameCount(rate: FrameRate, frameCount: int): (r: Result<Timecode>)
    ensures r.Success? <==> 0 <= frameCount < FrameCountLimit(rate)
    ensures r.Success? ==> r.value.rate == rate && r.value.frameCount == frameCount
    ensures r.Success? ==> Counted(rate, r.value.Label()) && Encode(rate, r.value.Label()) == frameCount
    ensures frameCount < 0 ==> r.error == IllegalArgument(FrameCountLess0, ErrorMessage(FrameCountLess0))
    ensures frameCount >= FrameCountLimit(rate) ==>
      r.error == IllegalArgument(FrameCountGreaterLimit,
                                 ErrorMessage(FrameCountGreaterLimit) + " " + IntToString(FrameCountLimit(rate)))
  {
    if frameCount < 0 then
      Failure(IllegalArgument(FrameCountLess0, ErrorMessage(FrameCountLess0)))
    else if frameCount >= FrameCountLimit(rate) then
      Failure(IllegalArgument(FrameCountGreaterLimit,
                              ErrorMessage(FrameCountGreaterLimit) + " " + IntToString(FrameCountLimit(rate))))
    else
      CountRoundTrip(rate, frameCount);
      Success(Decoded(rate, frameCount))
  }

  /**
   `addition`: the other count is added and the fields re-decoded; only then is
   the sum compared with the limit, so a receiver that overflows keeps the
   oversized count when RESULT_GREATER_LIMIT is thrown.
   */
  function Addition(t: Timecode, other: Timecode): (r: Mutation)
    ensures r.state.rate == t.rate && r.state.frameCount == t.frameCount + other.frameCount
    ensures r.thrown.Some? <==> t.frameCount + other.frameCount >= FrameCountLimit(t.rate)
    ensures r.thrown.Some? ==> r.thrown.value == ResultGreaterLimit
    ensures 0 <= t.frameCount + other.frameCount < FrameCountLimit(t.rate) ==>
      Counted(t.rate, r.state.Label()) && Encode(t.rate, r.state.Label()) == r.state.frameCount
    ensures t.rate != Df30 ==> NominalFields(FrameMax(t.rate), r.state.Label(), r.state.frameCount)
    ensures t.rate == Df30 && t.frameCount + other.frameCount >= 0 ==>
      Counted(Df30, r.state.Label())
        && Encode(Df30, r.state.Label()) == r.state.frameCount % (FrameCountLimit(Df30) + 1)
  {
    var sum := t.frameCount + other.frameCount;
    CountRoundTripIfInRange(t.rate, sum);
    DecodeAnyCount(t.rate, sum);
    Mutation(Decoded(t.rate, sum), if sum >= FrameCountLimit(t.rate) then Some(ResultGreaterLimit) else None)
  }

  /**
   `subtraction` as the nominal classes inherit it. A positive difference is
   decoded; a difference of zero or less takes minutes, seconds and frames from
   the decoding of limit + difference and sets hours to the receiver's hours
   less the other's. Only then is |difference| compared with the limit.
   */
  function Subtraction(t: Timecode, other: Timecode): (r: Mutation)
    ensures r.state.rate == t.rate && r.state.frameCount == t.frameCount - other.frameCount
    ensures r.thrown.Some? <==> Abs(t.frameCount - other.frameCount) >= FrameCountLimit(t.rate)
    ensures r.thrown.Some? ==> r.thrown.value == ResultLesserLimit
    ensures 0 < t.frameCount - other.frameCount < FrameCountLimit(t.rate) ==>
      Counted(t.rate, r.state.Label()) && Encode(t.rate, r.state.Label()) == r.state.frameCount
    ensures t.frameCount - other.frameCount <= 0 ==> r.state.hours == t.hours - other.hours
    ensures t.rate != Df30 && t.frameCount - other.frameCount > 0 ==>
      NominalFields(FrameMax(t.rate), r.state.Label(), r.state.frameCount)
    ensures t.rate != Df30 && t.frameCount - other.frameCount <= 0 ==>
      WithinHour(FrameMax(t.rate), r.state.Label(), FrameCountLimit(t.rate) + r.state.frameCount)
  {
    var difference := t.frameCount - other.frameCount;
    var state :=
      if difference > 0 then
        CountRoundTripIfInRange(t.rate, difference);
        DecodeAnyCount(t.rate, difference);
        Decoded(t.rate, difference)
      else
        (NominalFaceAnyHours(t.rate, FrameCountLimit(t.rate) + difference, t.hours - other.hours);
         var wrapped := Decode(t.rate, FrameCountLimit(t.rate) + difference);
         Timecode(t.rate, t.hours - other.hours, wrapped.minutes, wrapped.seconds, wrapped.frames, difference));
    Mutation(state, if Abs(difference) >= FrameCountLimit(t.rate) then Some(ResultLesserLimit) else None)
  }

  /** Addition of two timecodes of one class does not depend on the order. */
  lemma AdditionCommutes(a: Timecode, b: Timecode)
    requires a.rate == b.rate
    ensures Addition(a, b) == Addition(b, a)
  {
  }

  /**
   Nominal rates: when the difference is at most zero but above minus the
   limit, the minutes, seconds and frames left by `subtraction` are in range
   and make up the difference modulo one hour of frames.
   */
  lemma NominalWrapWithinHour(t: Timecode, other: Timecode)
    requires t.rate != Df30
    requires -FrameCountLimit(t.rate) < t.frameCount - other.frameCount <= 0
    ensures var r := Subtraction(t, other).state; var fps := FrameMax(t.rate);
      && 0 <= r.minutes < 60 && 0 <= r.seconds < 60 && 0 <= r.frames < fps
      && CountFrames(0, fps, Units(0, r.minutes, r.seconds, r.frames)) == r.frameCount % (60 * 60 * fps)
  {
    var fps, hourFrames := FrameMax(t.rate), 60 * 60 * FrameMax(t.rate);
    var difference := t.frameCount - other.frameCount;
    var n := FrameCountLimit(t.rate) + difference;
    assert WithinHour(fps, Subtraction(t, other).state.Label(), n);
    DivRemNonNegative(n, hourFrames);
    assert n % hourFrames == difference % hourFrames by {
      assert n == difference + 24 * hourFrames;
      DivModBy(n, hourFrames, difference / hourFrames + 24, difference % hourFrames);
    }
  }

  /**
   `equals`: the five integer fields agree. The class is not compared, so
   timecodes of different rates can be equal.
   */
  predicate Equals(a: Timecode, b: Timecode) {
    a.frames == b.frames && a.seconds == b.seconds && a.minutes == b.minutes
      && a.hours == b.hours && a.frameCount == b.frameCount
  }

  /** Equality is the equality of the values with the rate disregarded, so it is an equivalence. */
  lemma EqualsIgnoresRate(a: Timecode, b: Timecode)
    ensures Equals(a, b) <==> a.(rate := b.rate) == b
  {
  }

  /** One step of `Arrays.hashCode` over `int` elements: times 31 plus the element, in 32-bit arithmetic. */
  function HashStep(hash: int, element: int): int {
    Wrap32(31 * hash + element)
  }

  /** `hashCode`: `Objects.hash(frames, seconds, minutes, hours, frameCount)`. */
  function HashCode(t: Timecode): (r: int)
    ensures IntMin <= r <= IntMax
  {
    HashStep(HashStep(HashStep(HashStep(HashStep(1, t.frames), t.seconds), t.minutes), t.hours), t.frameCount)
  }

  /** Equal timecodes hash equally, whatever their rates. */
  lemma EqualsHashCode(a: Timecode, b: Timecode)
    requires Equals(a, b)
    ensures HashCode(a) == HashCode(b)
  {
  }

  /** Wrapping is compatible with multiplication by 31 and addition. */
  lemma WrapStep(x: int, e: int)
    ensures Wrap32(31 * Wrap32(x) + e) == Wrap32(31 * x + e)
  {
    var m := 0x1_0000_0000;
    var j := (x - Wrap32(x)) / m;
    assert x - Wrap32(x) == m * j;
    WrapCongruent(31 * Wrap32(x) + e, 31 * x + e, -31 * j);
  }

  /** Numbers that differ by a multiple of 2^32 wrap to the same `int`. */
  lemma WrapCongruent(a: int, b: int, k: int)
    requires a == b + 0x1_0000_0000 * k
    ensures Wrap32(a) == Wrap32(b)
  {
    var m := 0x1_0000_0000;
    DivModBy(a - IntMin, m, (b - IntMin) / m + k, (b - IntMin) % m);
  }

  /** The hash code is the base-31 polynomial of the fields, wrapped once into an `int`. */
  lemma HashCodePolynomial(t: Timecode)
    ensures HashCode(t) == Wrap32(28629151 + 923521 * t.frames + 29791 * t.seconds + 961 * t.minutes
                                  + 31 * t.hours + t.frameCount)
  {
    var a1 := 31 + t.frames;
    var a2 := 31 * a1 + t.seconds;
    var a3 := 31 * a2 + t.minutes;
    var a4 := 31 * a3 + t.hours;
    var h1 := HashStep(1, t.frames);
    assert h1 == Wrap32(a1);
    var h2 := HashStep(h1, t.seconds);
    WrapStep(a1, t.seconds);
    assert h2 == Wrap32(a2);
    var h3 := HashStep(h2, t.minutes);
    WrapStep(a2, t.minutes);
    assert h3 == Wrap32(a3);
    var h4 := HashStep(h3, t.hours);
    WrapStep(a3, t.hours);
    assert h4 == Wrap32(a4);
    WrapStep(a4, t.frameCount);
    assert HashCode(t) == HashStep(h4, t.frameCount) == Wrap32(31 * a4 + t.frameCount);
  }

  /** Two decimal characters followed by a separator, the pieces a representation is made of. */
  function Field(value: int, separator: string): string {
    Format02d(value) + separator
  }

  /**
   The representation `HH:MM:SS<sep>FF`, each field rendered with `%02d`.
   With every field in 0..99 it is eleven characters whose two-digit groups
   read back as the fields.
   */
  function Render(u: Units, frameSeparator: char): (s: string)
    ensures 0 <= u.hours < 100 && 0 <= u.minutes < 100 && 0 <= u.seconds < 100 && 0 <= u.frames < 100 ==>
      && |s| == 11 && s[2] == ':' && s[5] == ':' && s[8] == frameSeparator
      && AllDigits(s[0..2]) && AllDigits(s[3..5]) && AllDigits(s[6..8]) && AllDigits(s[9..11])
      && DigitsValue(s[0..2]) == u.hours && DigitsValue(s[3..5]) == u.minutes
      && DigitsValue(s[6..8]) == u.seconds && DigitsValue(s[9..11]) == u.frames
  {
    var s := Field(u.hours, ":") + Field(u.minutes, ":") + Field(u.seconds, [frameSeparator]) + Format02d(u.frames);
    RenderPieces(u, frameSeparator, s);
    s
  }

  lemma RenderPieces(u: Units, frameSeparator: char, s: string)
    requires s == Field(u.hours, ":") + Field(u.minutes, ":") + Field(u.seconds, [frameSeparator]) + Format02d(u.frames)
    ensures 0 <= u.hours < 100 && 0 <= u.minutes < 100 && 0 <= u.seconds < 100 && 0 <= u.frames < 100 ==>
      && |s| == 11 && s[2] == ':' && s[5] == ':' && s[8] == frameSeparator
      && s[0..2] == Format02d(u.hours) && s[3..5] == Format02d(u.minutes)
      && s[6..8] == Format02d(u.seconds) && s[9..11] == Format02d(u.frames)
  {
    if 0 <= u.hours < 100 && 0 <= u.minutes < 100 && 0 <= u.seconds < 100 && 0 <= u.frames < 100 {
      var p1, p2, p3 := Field(u.hours, ":"), Field(u.minutes, ":"), Field(u.seconds, [frameSeparator]);
      var p4 := Format02d(u.frames);
      assert |p1| == 3 && |p2| == 3 && |p3| == 3 && |p4| == 2;
      assert s[0..3] == p1 && s[3..6] == p2 && s[6..9] == p3 && s[9..11] == p4;
      assert s[0..2] == p1[..2] == Format02d(u.hours);
      assert s[3..5] == p2[..2] == Format02d(u.minutes);
      assert s[6..8] == p3[..2] == Format02d(u.seconds);
    }
  }

  /** `getStringRepresentation` of the nominal classes: every field separated by ':'. */
  function BaseRepresentation(t: Timecode): string {
    Render(t.Label(), ':')
  }
}
