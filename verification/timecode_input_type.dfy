/**
 The classification of a timecode value string: the units form
 `\d{2}:\d{2}:\d{2}[;:]\d{2}` or the frame-count form `\d+`, each matched
 against the whole string, with `\d` the ASCII digits.
 */
module TimecodeInputType {
  import opened JavaText
  import opened TimecodeException

  datatype InputType = UnitsInput | FrameCountInput

  /** Two digits, ':', two digits, ':', two digits, ':' or ';', two digits. */
  predicate IsUnitsForm(s: string) {
    && |s| == 11
    && IsDigit(s[0]) && IsDigit(s[1]) && s[2] == ':'
    && IsDigit(s[3]) && IsDigit(s[4]) && s[5] == ':'
    && IsDigit(s[6]) && IsDigit(s[7]) && (s[8] == ':' || s[8] == ';')
    && IsDigit(s[9]) && IsDigit(s[10])
  }

  /** One or more digits. */
  predicate IsFrameCountForm(s: string) {
    |s| >= 1 && AllDigits(s)
  }

  /** `fromString`: the units form first, then the frame-count form, anything else refused. */
  function FromString(s: string): (r: Result<InputType>)
    ensures r == Success(UnitsInput) <==> IsUnitsForm(s)
    ensures r == Success(FrameCountInput) <==> IsFrameCountForm(s)
    ensures r.Failure? <==> !IsUnitsForm(s) && !IsFrameCountForm(s)
    ensures r.Failure? ==> r.error == TimecodeError(InvalidInputFormat)
  {
    if IsUnitsForm(s) then
      assert !IsDigit(s[2]);
      Success(UnitsInput)
    else if IsFrameCountForm(s) then
      Success(FrameCountInput)
    else
      Failure(TimecodeError(InvalidInputFormat))
  }

  /** The two forms never overlap: a units form holds a ':', which is no digit. */
  lemma FormsDisjoint(s: string)
    ensures !(IsUnitsForm(s) && IsFrameCountForm(s))
  {
    if IsUnitsForm(s) {
      assert !IsDigit(s[2]);
    }
  }

  /** No range check and no sign: "99:99:99:99" is a units form, "-15" and "12:ab:23;44" are refused. */
  lemma ClassificationExamples()
    ensures FromString("99:99:99:99") == Success(UnitsInput)
    ensures FromString("571") == Success(FrameCountInput)
    ensures FromString("-15") == Failure(TimecodeError(InvalidInputFormat))
    ensures FromString("12:ab:23;44") == Failure(TimecodeError(InvalidInputFormat))
  {
    assert !IsDigit("-15"[0]);
    assert !IsDigit("12:ab:23;44"[3]) && !IsDigit("12:ab:23;44"[2]);
  }
}
