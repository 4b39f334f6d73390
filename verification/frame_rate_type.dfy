/**
 The four supported frame rates, their short names, the rate-name parser, the
 per-rate validation of a unit-form timecode, and the per-rate constants that
 each concrete timecode class declares (frames per second and the exclusive
 limit on a frame count).
 */
module FrameRateType {
  import opened TimecodeException

  datatype FrameRate = Fps24 | Fps25 | Fps30 | Df30

  /** The rate's short name, also what its `toString` returns. */
  function ShortName(rate: FrameRate): string {
    match rate
    case Fps24 => "24fps"
    case Fps25 => "25fps"
    case Fps30 => "30fps"
    case Df30 => "30DF"
  }

  /**
   Upper-casing as far as it matters when one side of a comparison is a rate
   name: the ASCII letters, and the long s (U+017F), whose upper case in Java
   is 'S'. No other character upper-cases to one of the characters "24fps",
   "25fps" or "30fps" are made of, so the comparison below is exact there.
   */
  function UpperCase(c: char): char {
    if 'a' <= c <= 'z' then (c as int - 32) as char
    else if c == 'ſ' then 'S'
    else c
  }

  /** Java's `String.equalsIgnoreCase`, character by character. */
  predicate EqualsIgnoreCase(a: string, b: string) {
    |a| == |b| && forall i :: 0 <= i < |a| ==> UpperCase(a[i]) == UpperCase(b[i])
  }

  /** Java's `String.endsWith`: `suffix` is a suffix of `s`. */
  predicate EndsWith(s: string, suffix: string) {
    |suffix| <= |s| && s[|s| - |suffix|..] == suffix
  }

  /** Parses a rate name: the three nominal names in any case, then any suffix of "30DF". */
  function FromString(s: string): (r: Result<FrameRate>)
    ensures r.Failure? ==> r.error == TimecodeError(InvalidFrameRate)
    ensures r.Success? && r.value != Df30 ==> EqualsIgnoreCase(ShortName(r.value), s)
    ensures r == Success(Df30) <==> EndsWith("30DF", s)
    ensures forall rate :: rate != Df30 && EqualsIgnoreCase(ShortName(rate), s) ==> r == Success(rate)
  {
    NominalNamesExclusive(s);
    if EqualsIgnoreCase("24fps", s) then Success(Fps24)
    else if EqualsIgnoreCase("25fps", s) then Success(Fps25)
    else if EqualsIgnoreCase("30fps", s) then Success(Fps30)
    else if EndsWith("30DF", s) then Success(Df30)
    else Failure(TimecodeError(InvalidFrameRate))
  }

  /**
   No input equals two nominal names ignoring case: the first character tells
   "30fps" from the others, and the second "24fps" from "25fps".
   */
  lemma NominalNamesExclusive(s: string)
    ensures EqualsIgnoreCase("25fps", s) ==> !EqualsIgnoreCase("24fps", s)
    ensures EqualsIgnoreCase("30fps", s) ==> !EqualsIgnoreCase("24fps", s) && !EqualsIgnoreCase("25fps", s)
  {
    if EqualsIgnoreCase("25fps", s) {
      assert UpperCase(s[1]) == UpperCase("25fps"[1]) == '5';
      assert UpperCase("24fps"[1]) == '4';
    }
    if EqualsIgnoreCase("30fps", s) {
      assert UpperCase(s[0]) == UpperCase("30fps"[0]) == '3';
      assert UpperCase("24fps"[0]) == '2' && UpperCase("25fps"[0]) == '2';
    }
  }

  /** The frames in one second: the divisor of the unit decomposition. */
  function FrameMax(rate: FrameRate): (r: int)
    ensures r == 24 || r == 25 || r == 30
  {
    match rate
    case Fps24 => 24
    case Fps25 => 25
    case Fps30 => 30
    case Df30 => 30
  }

  /** The exclusive upper bound of a frame count, as each timecode class declares it. */
  function FrameCountLimit(rate: FrameRate): (r: int)
    ensures rate != Df30 ==> r == 24 * 60 * 60 * FrameMax(rate)
    ensures rate == Df30 ==> r == 24 * 60 * 60 * 30 - 2 * 24 * 54 - 1
  {
    match rate
    case Fps24 => 2073600
    case Fps25 => 2160000
    case Fps30 => 2592000
    case Df30 => 2589407
  }

  /** Whether (hours, minutes, seconds, frames) is a label of a 24-hour clock at this rate. */
  function AreValidValues(rate: FrameRate, hours: int, minutes: int, seconds: int, frames: int): (valid: bool)
    ensures valid <==> 0 <= hours < 24 && 0 <= minutes < 60 && 0 <= seconds < 60 && 0 <= frames < FrameMax(rate)
  {
    var validHours := hours >= 0 && hours < 24;
    var validMinutes := minutes >= 0 && minutes < 60;
    var validSeconds := seconds >= 0 && seconds < 60;
    var validFrames :=
      match rate
      case Fps24 => frames >= 0 && frames < 24
      case Fps25 => frames >= 0 && frames < 25
      case Fps30 | Df30 => frames >= 0 && frames < 30;
    validHours && validMinutes && validSeconds && validFrames
  }

  /** Every short name parses back to its own rate. */
  lemma FromStringOfShortName(rate: FrameRate)
    ensures FromString(ShortName(rate)) == Success(rate)
  {
    match rate
    case Fps24 =>
      assert EqualsIgnoreCase("24fps", "24fps");
    case Fps25 =>
      assert !EqualsIgnoreCase("24fps", "25fps") by { assert UpperCase("24fps"[1]) != UpperCase("25fps"[1]); }
      assert EqualsIgnoreCase("25fps", "25fps");
    case Fps30 =>
      assert !EqualsIgnoreCase("24fps", "30fps") by { assert UpperCase("24fps"[0]) != UpperCase("30fps"[0]); }
      assert !EqualsIgnoreCase("25fps", "30fps") by { assert UpperCase("25fps"[0]) != UpperCase("30fps"[0]); }
      assert EqualsIgnoreCase("30fps", "30fps");
    case Df30 =>
      assert EndsWith("30DF", "30DF");
  }

  /** The drop-frame rate is chosen for exactly the suffixes of "30DF", the empty one included. */
  lemma DropFrameNames(s: string)
    ensures FromString(s) == Success(Df30) <==> s in {"30DF", "0DF", "DF", "F", ""}
  {
    if EndsWith("30DF", s) {
      var k := |s|;
      assert k <= 4;
      assert s == "30DF"[4 - k..];
      if k == 0 { assert s == ""; }
      else if k == 1 { assert s == "F"; }
      else if k == 2 { assert s == "DF"; }
      else if k == 3 { assert s == "0DF"; }
      else { assert s == "30DF"; }
    }
    if s in {"30DF", "0DF", "DF", "F", ""} {
      assert EndsWith("30DF", s);
    }
  }

  /** The suffix test is case-sensitive: the lower-case name of the drop-frame rate is refused. */
  lemma LowerCaseDropFrameRefused()
    ensures FromString("30df") == Failure(TimecodeError(InvalidFrameRate))
    ensures FromString("GH45") == Failure(TimecodeError(InvalidFrameRate))
  {
    assert "30df"[2] != "30DF"[2];
    assert UpperCase("30df"[1]) != UpperCase("24fps"[1]);
  }

  /** The 24 fps name in any mix of cases (and with a long s) is accepted. */
  lemma Fps24NameCaseInsensitive(s: string)
    requires |s| == 5 && s[0] == '2' && s[1] == '4'
    requires s[2] in "fF" && s[3] in "pP" && s[4] in "sSſ"
    ensures FromString(s) == Success(Fps24)
  {
    assert EqualsIgnoreCase("24fps", s);
  }
}
