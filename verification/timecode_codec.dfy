/**
 The conversion between the unit form of a timecode (hours, minutes, seconds,
 frames) and its frame count.

 The nominal rates count every label: one second is FrameMax(rate) frames.
 The drop-frame rate (29.97 fps, "30DF") labels 30 frames per second but skips
 the labels ;00 and ;01 of second 0 of every minute whose number is not a
 multiple of ten, so a ten-minute block holds 10 * 1800 - 9 * 2 = 17982 frames
 and every minute except its first holds 1798.
 */
module TimecodeCodec {
  import opened JavaInt
  import opened FrameRateType

  datatype Units = Units(hours: int, minutes: int, seconds: int, frames: int)

  predicate Valid(rate: FrameRate, u: Units) {
    AreValidValues(rate, u.hours, u.minutes, u.seconds, u.frames)
  }

  /** A label the drop-frame count skips: frames 0 and 1 of second 0 of a minute not divisible by ten. */
  predicate IsDroppedLabel(u: Units) {
    u.minutes % 10 != 0 && u.seconds == 0 && u.frames < 2
  }

  /** A label some frame count decodes to at this rate: a valid label, and at drop-frame not a dropped one. */
  predicate Counted(rate: FrameRate, u: Units) {
    Valid(rate, u) && (rate == Df30 ==> !IsDroppedLabel(u))
  }

  // ----- Nominal rates (TimecodeBase.countFrames / countUnits) -----

  /** Adds to `frameCount` the frames the units stand for at `fps` frames per second. */
  function CountFrames(frameCount: int, fps: int, u: Units): int {
    frameCount + u.frames + u.seconds * fps + u.minutes * 60 * fps + u.hours * 60 * 60 * fps
  }

  /** Splits a frame count into hours, minutes, seconds and frames with Java's truncating division. */
  function CountUnits(fps: int, n: int): Units
    requires fps > 0
  {
    var hours := Div(n, 60 * 60 * fps);
    var rest := n - hours * (60 * 60 * fps);
    var minutes := Div(rest, 60 * fps);
    var rest' := rest - minutes * (60 * fps);
    Units(hours, minutes, Div(rest', fps), Rem(rest', fps))
  }

  // ----- Drop-frame rate (Df30Timecode.frameDropCalculation / countUnits) -----

  /** The drop-frame count of a label: the nominal 30 fps count less two frames per minute not divisible by ten. */
  function FrameDropCalculation(u: Units): int {
    var totalMinutes := u.hours * 60 + u.minutes;
    108000 * u.hours + 1800 * u.minutes + 30 * u.seconds + u.frames
      - 2 * (totalMinutes - Div(totalMinutes, 10))
  }

  /** Puts back the labels skipped before a drop-frame count: 18 per ten-minute block, 2 per later minute. */
  function ReverseDropFrame(n: int): int {
    var division := Div(n, 17982);
    var modulus := Rem(n, 17982);
    n + 18 * division + 2 * Div(modulus - 2, 1798)
  }

  /** Splits a nominal 30 fps count into a label, the hours taken modulo 24. */
  function Units30(totalFrames: int): Units {
    Units(Rem(Div(totalFrames, 108000), 24),
          Rem(Div(totalFrames, 1800), 60),
          Rem(Div(totalFrames, 30), 60),
          Rem(totalFrames, 30))
  }

  /** The drop-frame decoder: the nominal 30 fps label of the count with its skipped labels put back. */
  function DropFrameCountUnits(n: int): Units {
    Units30(ReverseDropFrame(n))
  }

  // ----- Per-rate dispatch (the virtual countUnits and the constructors' encoding) -----

  function Encode(rate: FrameRate, u: Units): int {
    if rate == Df30 then FrameDropCalculation(u) else CountFrames(0, FrameMax(rate), u)
  }

  function Decode(rate: FrameRate, n: int): Units {
    if rate == Df30 then DropFrameCountUnits(n) else CountUnits(FrameMax(rate), n)
  }

  // ----- Nominal rates: the two round trips -----

  /** Re-encoding the decoded units of any frame count, negative ones included, gives that count back. */
  lemma CountUnitsReencodes(fps: int, n: int)
    requires fps > 0
    ensures CountFrames(0, fps, CountUnits(fps, n)) == n
  {
    var u := CountUnits(fps, n);
    var rest := n - u.hours * (60 * 60 * fps);
    var rest' := rest - u.minutes * (60 * fps);
    assert rest' == fps * u.seconds + u.frames;
    Reassemble(fps, n, u, rest, rest');
  }

  lemma Reassemble(fps: int, n: int, u: Units, rest: int, rest': int)
    requires rest' == fps * u.seconds + u.frames
    requires rest' == rest - u.minutes * (60 * fps)
    requires rest == n - u.hours * (60 * 60 * fps)
    ensures CountFrames(0, fps, u) == n
  {
    assert u.minutes * (60 * fps) == u.minutes * 60 * fps;
    assert u.hours * (60 * 60 * fps) == u.hours * 60 * 60 * fps;
  }

  /** On a non-negative count Java's divisions in `CountUnits` are Dafny's. */
  lemma CountUnitsEuclidean(fps: int, n: int)
    requires fps > 0 && n >= 0
    ensures var rest := n % (60 * 60 * fps);
      CountUnits(fps, n)
        == Units(n / (60 * 60 * fps), rest / (60 * fps), rest % (60 * fps) / fps, rest % (60 * fps) % fps)
  {
    var hourFrames, minuteFrames := 60 * 60 * fps, 60 * fps;
    var hours := Div(n, hourFrames);
    DivRemNonNegative(n, hourFrames);
    var rest := n - hours * hourFrames;
    assert rest == n % hourFrames;
    var minutes := Div(rest, minuteFrames);
    DivRemNonNegative(rest, minuteFrames);
    var rest' := rest - minutes * minuteFrames;
    assert rest' == rest % minuteFrames;
    DivRemNonNegative(rest', fps);
  }

  /** The decoded units of a non-negative count are in range; hours are not reduced modulo 24. */
  lemma CountUnitsBounds(fps: int, n: int)
    requires fps > 0 && n >= 0
    ensures var u := CountUnits(fps, n);
      && u.hours == n / (60 * 60 * fps)
      && 0 <= u.minutes < 60 && 0 <= u.seconds < 60 && 0 <= u.frames < fps
  {
    CountUnitsEuclidean(fps, n);
    var rest := n % (60 * 60 * fps);
    DivBelow(rest, 60 * fps, 60);
    DivBelow(rest % (60 * fps), fps, 60);
    NonNegativeQuotient(rest, 60 * fps);
    NonNegativeQuotient(rest % (60 * fps), fps);
  }

  /** Java's truncating division is odd: negating a count negates every unit it decodes to. */
  lemma CountUnitsNegate(fps: int, n: int)
    requires fps > 0
    ensures var u := CountUnits(fps, n);
      CountUnits(fps, -n) == Units(-u.hours, -u.minutes, -u.seconds, -u.frames)
  {
    var hourFrames, minuteFrames := 60 * 60 * fps, 60 * fps;
    var u := CountUnits(fps, n);
    DivRemNegate(n, hourFrames);
    var rest := n - u.hours * hourFrames;
    assert -n - (-u.hours) * hourFrames == -rest;
    DivRemNegate(rest, minuteFrames);
    var rest' := rest - u.minutes * minuteFrames;
    assert -rest - (-u.minutes) * minuteFrames == -rest';
    DivRemNegate(rest', fps);
  }

  /**
   Minutes, seconds and frames as the nominal decoder leaves them for count `n`:
   they make up Java's `n % (one hour of frames)`, and each has the sign of `n`
   and a magnitude below its radix.
   */
  predicate WithinHour(fps: int, u: Units, n: int)
    requires fps > 0
  {
    && CountFrames(0, fps, Units(0, u.minutes, u.seconds, u.frames)) == Rem(n, 60 * 60 * fps)
    && (n >= 0 ==> 0 <= u.minutes < 60 && 0 <= u.seconds < 60 && 0 <= u.frames < fps)
    && (n < 0 ==> -60 < u.minutes <= 0 && -60 < u.seconds <= 0 && -fps < u.frames <= 0)
  }

  /** The units of count `n` at a nominal rate: they encode back to `n` and lie within the hour as above. */
  predicate NominalFields(fps: int, u: Units, n: int)
    requires fps > 0
  {
    CountFrames(0, fps, u) == n && WithinHour(fps, u, n)
  }

  /** `WithinHour` does not look at the hours, so the decoded face keeps it under any hours. */
  lemma NominalFaceAnyHours(rate: FrameRate, n: int, hours: int)
    ensures var u := Decode(rate, n);
      rate != Df30 ==> WithinHour(FrameMax(rate), Units(hours, u.minutes, u.seconds, u.frames), n)
  {
    if rate != Df30 {
      NominalDecodeFields(FrameMax(rate), n);
    }
  }

  /** The nominal decoder of any count, negative ones included, gives that count's units. */
  lemma {:induction false} NominalDecodeFields(fps: int, n: int)
    requires fps > 0
    ensures NominalFields(fps, CountUnits(fps, n), n)
  {
    CountUnitsReencodes(fps, n);
    if n >= 0 {
      NonNegativeWithinHour(fps, n);
    } else {
      NegativeWithinHour(fps, n);
    }
  }

  lemma NegativeWithinHour(fps: int, n: int)
    requires fps > 0 && n < 0
    ensures WithinHour(fps, CountUnits(fps, n), n)
  {
    var u, v := CountUnits(fps, n), CountUnits(fps, -n);
    NonNegativeWithinHour(fps, -n);
    CountUnitsNegate(fps, -n);
    assert u == Units(-v.hours, -v.minutes, -v.seconds, -v.frames);
    NegatedHour(fps, v);
    DivRemNegate(-n, 60 * 60 * fps);
  }

  lemma NegatedHour(fps: int, v: Units)
    ensures CountFrames(0, fps, Units(0, -v.minutes, -v.seconds, -v.frames))
      == -CountFrames(0, fps, Units(0, v.minutes, v.seconds, v.frames))
  {
    assert -v.seconds * fps == -(v.seconds * fps);
    assert -v.minutes * 60 * fps == -(v.minutes * 60 * fps);
  }

  lemma NonNegativeWithinHour(fps: int, n: int)
    requires fps > 0 && n >= 0
    ensures WithinHour(fps, CountUnits(fps, n), n)
  {
    var u := CountUnits(fps, n);
    var rest := n % (60 * 60 * fps);
    assert u.minutes == rest / (60 * fps) && u.seconds == rest % (60 * fps) / fps
        && u.frames == rest % (60 * fps) % fps by {
      CountUnitsEuclidean(fps, n);
    }
    CountUnitsBounds(fps, n);
    var secondPart := rest % (60 * fps);
    assert secondPart == u.seconds * fps + u.frames;
    assert rest == u.minutes * (60 * fps) + secondPart;
    assert u.minutes * 60 * fps == u.minutes * (60 * fps);
    assert CountFrames(0, fps, Units(0, u.minutes, u.seconds, u.frames)) == rest;
    DivRemNonNegative(n, 60 * 60 * fps);
  }

  /** The within-hour units are the unique digits of their count: one hour of frames in mixed radix. */
  lemma HourDigitsUnique(fps: int, u: Units, v: Units)
    requires fps > 0
    requires 0 <= u.minutes < 60 && 0 <= u.seconds < 60 && 0 <= u.frames < fps
    requires 0 <= v.minutes < 60 && 0 <= v.seconds < 60 && 0 <= v.frames < fps
    requires CountFrames(0, fps, Units(0, u.minutes, u.seconds, u.frames))
      == CountFrames(0, fps, Units(0, v.minutes, v.seconds, v.frames))
    ensures u.minutes == v.minutes && u.seconds == v.seconds && u.frames == v.frames
  {
    var w := CountFrames(0, fps, Units(0, u.minutes, u.seconds, u.frames));
    MixedRadix(u.frames, u.seconds, fps, 60);
    MixedRadix(v.frames, v.seconds, fps, 60);
    assert u.minutes * 60 * fps == u.minutes * (60 * fps);
    assert v.minutes * 60 * fps == v.minutes * (60 * fps);
    DivModBy(w, 60 * fps, u.minutes, u.seconds * fps + u.frames);
    DivModBy(w, 60 * fps, v.minutes, v.seconds * fps + v.frames);
    DivModBy(u.seconds * fps + u.frames, fps, u.seconds, u.frames);
    DivModBy(v.seconds * fps + v.frames, fps, v.seconds, v.frames);
  }

  /** `NominalFields` names one set of units per count: it characterises the nominal decoder. */
  lemma NominalFieldsUnique(fps: int, u: Units, v: Units, n: int)
    requires fps > 0 && NominalFields(fps, u, n) && NominalFields(fps, v, n)
    ensures u == v
  {
    if n >= 0 {
      HourDigitsUnique(fps, u, v);
    } else {
      var u', v' := Units(0, -u.minutes, -u.seconds, -u.frames), Units(0, -v.minutes, -v.seconds, -v.frames);
      NegatedHour(fps, u);
      NegatedHour(fps, v);
      HourDigitsUnique(fps, u', v');
    }
    var hourFrames := 60 * 60 * fps;
    assert u.hours * 60 * 60 * fps == u.hours * hourFrames;
    assert v.hours * 60 * 60 * fps == v.hours * hourFrames;
    assert u.hours * hourFrames == v.hours * hourFrames;
    DivModBy(u.hours * hourFrames, hourFrames, u.hours, 0);
    DivModBy(v.hours * hourFrames, hourFrames, v.hours, 0);
  }

  /** Encoding in-range units gives a count below 24 hours whose decoding is those units. */
  lemma CountFramesRoundTrip(fps: int, u: Units)
    requires fps > 0
    requires 0 <= u.hours < 24 && 0 <= u.minutes < 60 && 0 <= u.seconds < 60 && 0 <= u.frames < fps
    ensures var n := CountFrames(0, fps, u);
      0 <= n < 24 * (60 * 60 * fps) && CountUnits(fps, n) == u
  {
    var n := CountFrames(0, fps, u);
    var secondPart := u.seconds * fps + u.frames;
    MixedRadix(u.frames, u.seconds, fps, 60);
    var minutePart := u.minutes * (60 * fps) + secondPart;
    MixedRadix(secondPart, u.minutes, 60 * fps, 60);
    assert u.minutes * 60 * fps == u.minutes * (60 * fps);
    assert u.hours * 60 * 60 * fps == u.hours * (60 * 60 * fps);
    assert n == u.hours * (60 * 60 * fps) + minutePart;
    MixedRadix(minutePart, u.hours, 60 * 60 * fps, 24);
    DivModBy(n, 60 * 60 * fps, u.hours, minutePart);
    DivModBy(minutePart, 60 * fps, u.minutes, secondPart);
    DivModBy(secondPart, fps, u.seconds, u.frames);
    CountUnitsEuclidean(fps, n);
  }

  /** Nominal rates: valid units encode below the limit and decode back to themselves. */
  lemma NominalUnitsRoundTrip(rate: FrameRate, u: Units)
    requires rate != Df30 && Valid(rate, u)
    ensures 0 <= Encode(rate, u) < FrameCountLimit(rate)
    ensures Decode(rate, Encode(rate, u)) == u
  {
    CountFramesRoundTrip(FrameMax(rate), u);
  }

  /** Nominal rates: a count below the limit decodes to valid units that encode back to it. */
  lemma NominalCountRoundTrip(rate: FrameRate, n: int)
    requires rate != Df30 && 0 <= n < FrameCountLimit(rate)
    ensures Valid(rate, Decode(rate, n))
    ensures Encode(rate, Decode(rate, n)) == n
  {
    var fps := FrameMax(rate);
    CountUnitsBounds(fps, n);
    DivBelow(n, 60 * 60 * fps, 24);
    CountUnitsReencodes(fps, n);
  }

  /** Nominal rates: the limit itself decodes to hour 24, as hours are not reduced modulo 24. */
  lemma NominalDecodeLimit(rate: FrameRate)
    requires rate != Df30
    ensures Decode(rate, FrameCountLimit(rate)) == Units(24, 0, 0, 0)
  {
    var fps := FrameMax(rate);
    CountUnitsEuclidean(fps, FrameCountLimit(rate));
    DivModBy(FrameCountLimit(rate), 60 * 60 * fps, 24, 0);
  }

  // ----- Drop-frame rate: structure of the decoder and the two round trips -----

  /** A nominal 30 fps count of whole minutes plus `w` frames reads as those minutes and `w`'s seconds and frames. */
  lemma Clock30(totalMinutes: int, w: int)
    requires totalMinutes >= 0 && 0 <= w < 1800
    ensures Units30(1800 * totalMinutes + w) == Units(totalMinutes / 60 % 24, totalMinutes % 60, w / 30, w % 30)
  {
    var t := 1800 * totalMinutes + w;
    DivModBy(t, 1800, totalMinutes, w);
    var q, m := totalMinutes / 60, totalMinutes % 60;
    DivModBy(t, 108000, q, 1800 * m + w);
    DivModBy(t, 30, 60 * totalMinutes + w / 30, w % 30);
    DivModBy(60 * totalMinutes + w / 30, 60, totalMinutes, w / 30);
    DivRemNonNegative(t, 108000);
    DivRemNonNegative(q, 24);
    DivRemNonNegative(t, 1800);
    DivRemNonNegative(totalMinutes, 60);
    DivRemNonNegative(t, 30);
    DivRemNonNegative(t / 30, 60);
  }

  /** The minute digit of an hour-and-minute clock is the last digit of its total minutes. */
  lemma MinuteDigit(totalMinutes: int)
    requires totalMinutes >= 0
    ensures totalMinutes % 60 % 10 == totalMinutes % 10
  {
    var q, m := totalMinutes / 60, totalMinutes % 60;
    DivModBy(totalMinutes, 10, 6 * q + m / 10, m % 10);
  }

  /**
   How the drop-frame decoder reads a count: `d` whole ten-minute blocks, then
   `k` whole minutes of the block, then `w` frames of that minute, where the
   first minute of a block holds 1800 frames and the others 1798, their first
   label being ;02.
   */
  lemma DropFrameStructure(n: int) returns (d: int, k: int, w: int)
    requires n >= 0
    ensures d == n / 17982 && d >= 0 && 0 <= k <= 9 && 0 <= w < 1800
    ensures n == 17982 * d + 1798 * k + w
    ensures k != 0 ==> w >= 2
    ensures ReverseDropFrame(n) == 1800 * (10 * d + k) + w
    ensures DropFrameCountUnits(n) == Units((10 * d + k) / 60 % 24, (10 * d + k) % 60, w / 30, w % 30)
  {
    d := n / 17982;
    var r := n % 17982;
    DivRemNonNegative(n, 17982);
    k := Div(r - 2, 1798);
    if r < 2 {
      w := r;
    } else {
      DivRemNonNegative(r - 2, 1798);
      w := r - 1798 * k;
    }
    assert ReverseDropFrame(n) == 1800 * (10 * d + k) + w;
    Clock30(10 * d + k, w);
  }

  /** Drop-frame decoding of any non-negative count yields a valid label that is never a dropped one. */
  lemma DropFrameDecodeValid(n: int)
    requires n >= 0
    ensures Valid(Df30, Decode(Df30, n)) && !IsDroppedLabel(Decode(Df30, n))
  {
    var d, k, w := DropFrameStructure(n);
    MinuteDigit(10 * d + k);
    DivModBy(10 * d + k, 10, d, k);
  }

  /** The drop-frame count of the label `totalMinutes` minutes and `w` frames into the day. */
  lemma DropFrameEncodeLabel(totalMinutes: int, w: int)
    requires 0 <= totalMinutes && 0 <= w < 1800
    ensures FrameDropCalculation(Units(totalMinutes / 60, totalMinutes % 60, w / 30, w % 30))
      == 1798 * totalMinutes + 2 * (totalMinutes / 10) + w
  {
    var h, m, s, f := totalMinutes / 60, totalMinutes % 60, w / 30, w % 30;
    assert h * 60 + m == totalMinutes;
    assert 30 * s + f == w;
    DivRemNonNegative(totalMinutes, 10);
    assert 108000 * h + 1800 * m == 1800 * totalMinutes;
  }

  /** A label is its own split into total minutes and frames within the minute. */
  lemma LabelSplit(u: Units)
    requires 0 <= u.hours && 0 <= u.minutes < 60 && 0 <= u.seconds < 60 && 0 <= u.frames < 30
    ensures var totalMinutes, w := u.hours * 60 + u.minutes, 30 * u.seconds + u.frames;
      && 0 <= totalMinutes && 0 <= w < 1800
      && u == Units(totalMinutes / 60, totalMinutes % 60, w / 30, w % 30)
      && totalMinutes % 10 == u.minutes % 10
  {
    var totalMinutes, w := u.hours * 60 + u.minutes, 30 * u.seconds + u.frames;
    DivModBy(totalMinutes, 60, u.hours, u.minutes);
    DivModBy(w, 30, u.seconds, u.frames);
    MinuteDigit(totalMinutes);
  }

  /** The split of a count within a ten-minute block into minute `k` and frames `w` is unique. */
  lemma MinuteSplitUnique(k: int, w: int, k': int, w': int)
    requires 0 <= k <= 9 && 0 <= w < 1800 && (k != 0 ==> w >= 2)
    requires 0 <= k' <= 9 && 0 <= w' < 1800 && (k' != 0 ==> w' >= 2)
    requires 1798 * k + w == 1798 * k' + w'
    ensures k == k' && w == w'
  {
  }

  /** Drop-frame: every count up to and including the limit decodes to a label that encodes back to it. */
  lemma DropFrameCountRoundTrip(n: int)
    requires 0 <= n <= FrameCountLimit(Df30)
    ensures Valid(Df30, Decode(Df30, n)) && !IsDroppedLabel(Decode(Df30, n))
    ensures Encode(Df30, Decode(Df30, n)) == n
  {
    DropFrameDecodeValid(n);
    var d, k, w := DropFrameStructure(n);
    DivBelow(n, 17982, 144);
    var totalMinutes := 10 * d + k;
    assert 0 <= totalMinutes < 24 * 60;
    DivBelow(totalMinutes, 60, 24);
    NonNegativeQuotient(totalMinutes, 60);
    DivModBy(totalMinutes / 60, 24, 0, totalMinutes / 60);
    var u := Units(totalMinutes / 60, totalMinutes % 60, w / 30, w % 30);
    assert Decode(Df30, n) == u;
    DropFrameEncodeLabel(totalMinutes, w);
    DivModBy(totalMinutes, 10, d, k);
    assert Encode(Df30, u) == 1798 * totalMinutes + 2 * d + w;
  }

  /** Adding whole days of minutes changes neither the hour of the day nor the minute of the hour. */
  lemma DayOfMinutes(totalMinutes: int, days: int)
    requires totalMinutes >= 0 && days >= 0
    ensures (totalMinutes + 1440 * days) / 60 % 24 == totalMinutes / 60 % 24
    ensures (totalMinutes + 1440 * days) % 60 == totalMinutes % 60
  {
    var h := totalMinutes / 60;
    DivModBy(totalMinutes + 1440 * days, 60, h + 24 * days, totalMinutes % 60);
    NonNegativeQuotient(totalMinutes, 60);
    DivModBy(h + 24 * days, 24, h / 24 + days, h % 24);
  }

  /**
   Drop-frame hours are taken modulo 24, so a count of a day or more (limit + 1
   frames) decodes like the count reduced modulo a day: a counted label whose
   count is that remainder.
   */
  lemma DropFrameDayWrap(n: int)
    requires n >= 0
    ensures Decode(Df30, n) == Decode(Df30, n % (FrameCountLimit(Df30) + 1))
    ensures Counted(Df30, Decode(Df30, n)) && Encode(Df30, Decode(Df30, n)) == n % (FrameCountLimit(Df30) + 1)
  {
    var day := FrameCountLimit(Df30) + 1;
    DropFrameDayCount(n);
    DropFrameCountRoundTrip(n % day);
    CountedLabelUnique(Df30, Decode(Df30, n), Decode(Df30, n % day));
  }

  lemma DropFrameDayCount(n: int)
    requires n >= 0
    ensures Counted(Df30, Decode(Df30, n)) && Encode(Df30, Decode(Df30, n)) == n % (FrameCountLimit(Df30) + 1)
  {
    DropFrameDecodeValid(n);
    var block, k, w := DropFrameDayLabel(n);
    var minutes := 10 * block + k;
    DropFrameEncodeLabel(minutes, w);
    DivModBy(minutes, 10, block, k);
  }

  /** The label of a drop-frame count, read from the ten-minute block within the day, the minute and the frame. */
  lemma DropFrameDayLabel(n: int) returns (block: int, k: int, w: int)
    requires n >= 0
    ensures 0 <= block < 144 && 0 <= k <= 9 && 0 <= w < 1800
    ensures var minutes := 10 * block + k;
      && minutes >= 0
      && Decode(Df30, n) == Units(minutes / 60, minutes % 60, w / 30, w % 30)
      && n % (FrameCountLimit(Df30) + 1) == 17982 * block + 1798 * k + w
  {
    var d;
    d, k, w := DropFrameStructure(n);
    var days := d / 144;
    block := d % 144;
    DivRemNonNegative(d, 144);
    DayClock(d, k, days, block);
    DayRemainder(n, d, k, w, days, block);
  }

  /** A count of `d` = 144 · days + block ten-minute blocks and a part block is, modulo a day, `block` blocks and that part. */
  lemma DayRemainder(n: int, d: int, k: int, w: int, days: int, block: int)
    requires n == 17982 * d + 1798 * k + w && 0 <= k <= 9 && 0 <= w < 1800
    requires d == 144 * days + block && 0 <= block < 144
    ensures n % (FrameCountLimit(Df30) + 1) == 17982 * block + 1798 * k + w
  {
    var day := FrameCountLimit(Df30) + 1;
    assert 17982 * d == day * days + 17982 * block;
    DivModBy(n, day, days, 17982 * block + 1798 * k + w);
  }

  /** The clock of `d` ten-minute blocks and `k` minutes is that of the blocks left over after whole days. */
  lemma DayClock(d: int, k: int, days: int, block: int)
    requires d == 144 * days + block && 0 <= block < 144 && days >= 0 && 0 <= k <= 9
    ensures var minutes := 10 * block + k;
      && (10 * d + k) / 60 % 24 == minutes / 60
      && (10 * d + k) % 60 == minutes % 60
  {
    var minutes := 10 * block + k;
    DayOfMinutes(minutes, days);
    DivBelow(minutes, 60, 24);
    NonNegativeQuotient(minutes, 60);
    DivModBy(minutes / 60, 24, 0, minutes / 60);
  }

  /** Drop-frame: a valid label that is not dropped encodes to at most the limit and decodes back to itself. */
  lemma DropFrameUnitsRoundTrip(u: Units)
    requires Valid(Df30, u) && !IsDroppedLabel(u)
    ensures 0 <= Encode(Df30, u) <= FrameCountLimit(Df30)
    ensures Decode(Df30, Encode(Df30, u)) == u
  {
    LabelSplit(u);
    var totalMinutes, w := u.hours * 60 + u.minutes, 30 * u.seconds + u.frames;
    DropFrameEncodeLabel(totalMinutes, w);
    var d, j := totalMinutes / 10, totalMinutes % 10;
    DivBelow(totalMinutes, 10, 144);
    var n := Encode(Df30, u);
    assert n == 17982 * d + 1798 * j + w;
    var d', k', w' := DropFrameStructure(n);
    DivModBy(n, 17982, d, 1798 * j + w);
    MinuteSplitUnique(j, w, k', w');
    assert 10 * d' + k' == totalMinutes && w' == w;
    assert Decode(Df30, n) == Units(totalMinutes / 60 % 24, totalMinutes % 60, w / 30, w % 30);
    assert totalMinutes / 60 == u.hours;
    DivModBy(u.hours, 24, 0, u.hours);
  }

  /**
   Drop-frame: a dropped label is accepted by validation but shares its count
   with the label two frames earlier, the last two frames of the previous
   minute, and decodes to that label.
   */
  lemma DroppedLabelAlias(u: Units)
    requires Valid(Df30, u) && IsDroppedLabel(u)
    ensures var p := Units(u.hours, u.minutes - 1, 59, 28 + u.frames);
      && Valid(Df30, p) && !IsDroppedLabel(p)
      && Encode(Df30, u) == Encode(Df30, p)
      && Decode(Df30, Encode(Df30, u)) == p
  {
    var p := Units(u.hours, u.minutes - 1, 59, 28 + u.frames);
    LabelSplit(u);
    LabelSplit(p);
    var totalMinutes := u.hours * 60 + u.minutes;
    DropFrameEncodeLabel(totalMinutes, u.frames);
    DropFrameEncodeLabel(totalMinutes - 1, 1798 + u.frames);
    DivModBy(totalMinutes - 1, 10, totalMinutes / 10, totalMinutes % 10 - 1);
    DropFrameUnitsRoundTrip(p);
  }

  /**
   Drop-frame: one count further on, the decoder's nominal 30 fps position
   moves one frame on, or three when the label one frame on is a dropped one
   (it then skips the two dropped labels).
   */
  lemma DropFrameNext(n: int)
    requires n >= 0
    ensures var t := ReverseDropFrame(n);
      ReverseDropFrame(n + 1) == if IsDroppedLabel(Units30(t + 1)) then t + 3 else t + 1
  {
    var d, k, w := DropFrameStructure(n);
    if w < 1799 {
      NextWithinMinute(n, d, k, w);
    } else if k < 9 {
      NextIntoDroppedMinute(n, d, k);
    } else {
      NextIntoBlock(n, d);
    }
  }

  lemma NextWithinMinute(n: int, d: int, k: int, w: int)
    requires n >= 0 && d >= 0 && 0 <= k <= 9 && 0 <= w < 1799 && (k != 0 ==> w >= 2)
    requires n == 17982 * d + 1798 * k + w
    requires ReverseDropFrame(n) == 1800 * (10 * d + k) + w
    ensures ReverseDropFrame(n + 1) == ReverseDropFrame(n) + 1
    ensures !IsDroppedLabel(Units30(ReverseDropFrame(n) + 1))
  {
    var totalMinutes := 10 * d + k;
    var d', k', w' := DropFrameStructure(n + 1);
    DivModBy(n + 1, 17982, d, 1798 * k + w + 1);
    MinuteSplitUnique(k, w + 1, k', w');
    Clock30(totalMinutes, w + 1);
    MinuteDigit(totalMinutes);
    DivModBy(totalMinutes, 10, d, k);
  }

  lemma NextIntoDroppedMinute(n: int, d: int, k: int)
    requires n >= 0 && d >= 0 && 0 <= k < 9
    requires n == 17982 * d + 1798 * k + 1799
    requires ReverseDropFrame(n) == 1800 * (10 * d + k) + 1799
    ensures ReverseDropFrame(n + 1) == ReverseDropFrame(n) + 3
    ensures IsDroppedLabel(Units30(ReverseDropFrame(n) + 1))
  {
    var totalMinutes := 10 * d + k + 1;
    var d', k', w' := DropFrameStructure(n + 1);
    DivModBy(n + 1, 17982, d, 1798 * (k + 1) + 2);
    MinuteSplitUnique(k + 1, 2, k', w');
    Clock30(totalMinutes, 0);
    MinuteDigit(totalMinutes);
    DivModBy(totalMinutes, 10, d, k + 1);
  }

  lemma NextIntoBlock(n: int, d: int)
    requires n >= 0 && d >= 0
    requires n == 17982 * d + 1798 * 9 + 1799
    requires ReverseDropFrame(n) == 1800 * (10 * d + 9) + 1799
    ensures ReverseDropFrame(n + 1) == ReverseDropFrame(n) + 1
    ensures !IsDroppedLabel(Units30(ReverseDropFrame(n) + 1))
  {
    var totalMinutes := 10 * d + 10;
    var d', k', w' := DropFrameStructure(n + 1);
    DivModBy(n + 1, 17982, d + 1, 0);
    MinuteSplitUnique(0, 0, k', w');
    Clock30(totalMinutes, 0);
    MinuteDigit(totalMinutes);
    DivModBy(totalMinutes, 10, d + 1, 0);
  }

  /** Drop-frame: the last label of the day, 23:59:59;29, encodes to the limit itself, and the one before it to the limit less one. */
  lemma DropFrameLimitLabel()
    ensures Encode(Df30, Units(23, 59, 59, 29)) == FrameCountLimit(Df30)
    ensures Encode(Df30, Units(23, 59, 59, 28)) == FrameCountLimit(Df30) - 1
    ensures Decode(Df30, FrameCountLimit(Df30)) == Units(23, 59, 59, 29)
  {
    DropFrameUnitsRoundTrip(Units(23, 59, 59, 29));
  }

  /** Every rate: a count from 0 up to (excluding) the limit decodes to a valid label that encodes back to it. */
  lemma CountRoundTrip(rate: FrameRate, n: int)
    requires 0 <= n < FrameCountLimit(rate)
    ensures Counted(rate, Decode(rate, n)) && Encode(rate, Decode(rate, n)) == n
  {
    if rate == Df30 {
      DropFrameCountRoundTrip(n);
    } else {
      NominalCountRoundTrip(rate, n);
    }
  }

  /** `CountRoundTrip` stated for any count, to be used where the range is not yet known. */
  lemma CountRoundTripIfInRange(rate: FrameRate, n: int)
    ensures 0 <= n < FrameCountLimit(rate) ==> Counted(rate, Decode(rate, n)) && Encode(rate, Decode(rate, n)) == n
  {
    if 0 <= n < FrameCountLimit(rate) {
      CountRoundTrip(rate, n);
    }
  }

  /** Two counted labels with the same count are the same label: a count names its label uniquely. */
  lemma CountedLabelUnique(rate: FrameRate, u: Units, v: Units)
    requires Counted(rate, u) && Counted(rate, v) && Encode(rate, u) == Encode(rate, v)
    ensures u == v
  {
    if rate == Df30 {
      DropFrameUnitsRoundTrip(u);
      DropFrameUnitsRoundTrip(v);
    } else {
      NominalUnitsRoundTrip(rate, u);
      NominalUnitsRoundTrip(rate, v);
    }
  }

  /**
   What `countUnits` leaves for any count: at a nominal rate the
   count's units (negative ones included), at drop-frame, for a non-negative
   count, the counted label of the count modulo a day.
   */
  lemma DecodeAnyCount(rate: FrameRate, n: int)
    ensures rate != Df30 ==> NominalFields(FrameMax(rate), Decode(rate, n), n)
    ensures rate == Df30 && n >= 0 ==>
      Counted(Df30, Decode(Df30, n)) && Encode(Df30, Decode(Df30, n)) == n % (FrameCountLimit(Df30) + 1)
  {
    if rate != Df30 {
      NominalDecodeFields(FrameMax(rate), n);
    } else if n >= 0 {
      DropFrameDayWrap(n);
    }
  }
}
