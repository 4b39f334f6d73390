/**
 Worked cases from the repository's acceptance and unit tests, stated about
 the model: what `of(rate, value).getOppositeRepresentation()` answers, and
 what the arithmetic leaves in the receiver.
 */
module AcceptanceExamples {
  import opened JavaInt
  import opened JavaText
  import opened TimecodeException
  import opened FrameRateType
  import opened TimecodeCodec
  import opened TimecodeBase
  import opened TimecodeInputType
  import opened TimecodeStrings
  import Df30Timecode
  import Timecodes
  import TimecodeFactory

  /** A count string answers with the units string of the label the count decodes to. */
  lemma CountAnswer(rate: FrameRate, n: int, expected: string)
    requires 0 <= n < FrameCountLimit(rate)
    requires IsUnitsForm(expected) && expected[8] == Timecodes.FrameSeparator(rate)
    requires UnitsDigits(expected) == Decode(rate, n)
    ensures var ts := OfValue(ShortName(rate), IntToString(n));
      ts.Success? && GetOppositeRepresentation(ts.value) == expected
  {
    var ts := OfValue(ShortName(rate), IntToString(n));
    assert ts == OfFrameCount(ShortName(rate), n) && ts.Success? by {
      FromStringOfShortName(rate);
      DigitsValueOfNatToString(n);
    }
    var fields := ts.value.timecode.Label();
    assert fields == Decode(rate, n) by {
      CountRoundTrip(rate, n);
      CountedLabelUnique(rate, fields, Decode(rate, n));
    }
    var shown := GetOppositeRepresentation(ts.value);
    assert shown == expected by {
      ParseDigits(expected);
      assert ParseInputByUnits(shown) == fields == ParseInputByUnits(expected);
      SameUnitsForm(shown, expected);
    }
  }

  /** The fields of a units form, read digit by digit. */
  function UnitsDigits(s: string): Units
    requires IsUnitsForm(s)
  {
    Units(10 * DigitValue(s[0]) + DigitValue(s[1]), 10 * DigitValue(s[3]) + DigitValue(s[4]),
          10 * DigitValue(s[6]) + DigitValue(s[7]), 10 * DigitValue(s[9]) + DigitValue(s[10]))
  }

  lemma ParseDigits(s: string)
    requires IsUnitsForm(s)
    ensures ParseInputByUnits(s) == UnitsDigits(s)
  {
    TwoDigits(s[0..2]);
    TwoDigits(s[3..5]);
    TwoDigits(s[6..8]);
    TwoDigits(s[9..11]);
  }

  /** A units string answers with the decimal count of its label. */
  lemma UnitsAnswer(rate: FrameRate, s: string, n: int, expected: string)
    requires IsUnitsForm(s) && s[8] == Timecodes.FrameSeparator(rate)
    requires Valid(rate, UnitsDigits(s)) && (rate == Df30 ==> !IsDroppedLabel(UnitsDigits(s)))
    requires Encode(rate, UnitsDigits(s)) == n < FrameCountLimit(rate)
    requires IntToString(n) == expected
    ensures var ts := OfValue(ShortName(rate), s);
      ts.Success? && GetOppositeRepresentation(ts.value) == expected
  {
    ParseDigits(s);
    UnitsStringRoundTrip(rate, s);
  }

  lemma Fps25UnitsFacts()
    ensures UnitsDigits("00:00:51:21") == Units(0, 0, 51, 21)
    ensures IntToString(1296) == "1296"
  {
  }

  /** 25 fps, "00:00:51:21" answers "1296". */
  lemma Fps25UnitsCase()
    ensures var ts := OfValue("25fps", "00:00:51:21");
      ts.Success? && GetOppositeRepresentation(ts.value) == "1296"
  {
    Fps25UnitsFacts();
    UnitsAnswer(Fps25, "00:00:51:21", 1296, "1296");
  }

  lemma Df30UnitsFacts()
    ensures UnitsDigits("00:14:18;26") == Units(0, 14, 18, 26)
    ensures Encode(Df30, Units(0, 14, 18, 26)) == 25740
    ensures IntToString(25740) == "25740"
  {
  }

  /** Drop-frame, "00:14:18;26" answers "25740". */
  lemma Df30UnitsCase()
    ensures var ts := OfValue("30DF", "00:14:18;26");
      ts.Success? && GetOppositeRepresentation(ts.value) == "25740"
  {
    Df30UnitsFacts();
    UnitsAnswer(Df30, "00:14:18;26", 25740, "25740");
  }

  lemma Fps25CountFacts()
    ensures Decode(Fps25, 173161) == Units(1, 55, 26, 11)
    ensures UnitsDigits("01:55:26:11") == Units(1, 55, 26, 11)
    ensures IntToString(173161) == "173161"
  {
    assert Decode(Fps25, 173161) == Units(1, 55, 26, 11) by {
      DivModBy(173161, 90000, 1, 83161);
      DivModBy(83161, 1500, 55, 661);
      DivModBy(661, 25, 26, 11);
    }
    assert UnitsDigits("01:55:26:11") == Units(1, 55, 26, 11);
  }

  /** 25 fps, "173161" answers "01:55:26:11". */
  lemma Fps25CountCase()
    ensures var ts := OfValue("25fps", "173161");
      ts.Success? && GetOppositeRepresentation(ts.value) == "01:55:26:11"
  {
    Fps25CountFacts();
    CountAnswer(Fps25, 173161, "01:55:26:11");
  }

  lemma Df30CountFacts()
    ensures Decode(Df30, 571) == Units(0, 0, 19, 1)
    ensures UnitsDigits("00:00:19;01") == Units(0, 0, 19, 1)
    ensures IntToString(571) == "571"
  {
    assert Decode(Df30, 571) == Units(0, 0, 19, 1) by {
      assert ReverseDropFrame(571) == 571 by {
        DivModBy(571, 17982, 0, 571);
        DivModBy(569, 1798, 0, 569);
      }
      Clock30(0, 571);
    }
    assert UnitsDigits("00:00:19;01") == Units(0, 0, 19, 1);
    assert IntToString(571) == "571" by {
      assert NatToString(57) == "57";
    }
  }

  /** Drop-frame, "571" answers "00:00:19;01". */
  lemma Df30CountCase()
    ensures var ts := OfValue("30DF", "571");
      ts.Success? && GetOppositeRepresentation(ts.value) == "00:00:19;01"
  {
    Df30CountFacts();
    CountAnswer(Df30, 571, "00:00:19;01");
  }

  lemma Df30FirstDropFacts()
    ensures Decode(Df30, 1800) == Units(0, 1, 0, 2)
    ensures UnitsDigits("00:01:00;02") == Units(0, 1, 0, 2)
    ensures IntToString(1800) == "1800"
  {
    Df30Timecode.DecodeFirstOfMinute();
  }

  /** Drop-frame, "1800" answers "00:01:00;02": the first two labels of minute 1 are skipped. */
  lemma Df30FirstDropCase()
    ensures var ts := OfValue("30DF", "1800");
      ts.Success? && GetOppositeRepresentation(ts.value) == "00:01:00;02"
  {
    Df30FirstDropFacts();
    CountAnswer(Df30, 1800, "00:01:00;02");
  }

  lemma Df30LateCountFacts()
    ensures Decode(Df30, 1958418) == Units(18, 9, 6, 0)
    ensures UnitsDigits("18:09:06;00") == Units(18, 9, 6, 0)
    ensures IntToString(1958418) == "1958418"
  {
    DivModBy(1958418, 17982, 108, 16362);
    DivModBy(16360, 1798, 9, 178);
    assert ReverseDropFrame(1958418) == 1800 * 1089 + 180;
    Clock30(1089, 180);
  }

  /** Drop-frame, "1958418" answers "18:09:06;00". */
  lemma Df30LateCountCase()
    ensures var ts := OfValue("30DF", "1958418");
      ts.Success? && GetOppositeRepresentation(ts.value) == "18:09:06;00"
  {
    Df30LateCountFacts();
    CountAnswer(Df30, 1958418, "18:09:06;00");
  }

  lemma Df30AdditionFacts()
    ensures FrameDropCalculation(Units(22, 59, 59, 24)) == 2481510
    ensures FrameDropCalculation(Units(0, 0, 0, 10)) == 10
    ensures FrameDropCalculation(Units(23, 0, 0, 4)) == 2481520
    ensures Decode(Df30, 2481520) == Units(23, 0, 0, 4)
  {
    assert Decode(Df30, 2481520) == Units(23, 0, 0, 4) by {
      DivModBy(2481520, 17982, 138, 4);
      assert ReverseDropFrame(2481520) == 1800 * 1380 + 4;
      Clock30(1380, 4);
    }
  }

  /** Drop-frame 22:59:59;24 + 00:00:00;10 is 23:00:00;04: the carry runs into a minute that keeps its labels. */
  lemma Df30AdditionCase()
    ensures var a := TimecodeFactory.CreateTimeCode(Df30, 22, 59, 59, 24);
      var b := TimecodeFactory.CreateTimeCode(Df30, 0, 0, 0, 10);
      var c := TimecodeFactory.CreateTimeCode(Df30, 23, 0, 0, 4);
      && a.Success? && b.Success? && c.Success?
      && Timecodes.Add(a.value, b.value) == Mutation(c.value, None)
  {
    Df30AdditionFacts();
    assert TimecodeFactory.CreateTimeCode(Df30, 22, 59, 59, 24) == Success(Timecode(Df30, 22, 59, 59, 24, 2481510));
    assert TimecodeFactory.CreateTimeCode(Df30, 0, 0, 0, 10) == Success(Timecode(Df30, 0, 0, 0, 10, 10));
    assert TimecodeFactory.CreateTimeCode(Df30, 23, 0, 0, 4) == Success(Timecode(Df30, 23, 0, 0, 4, 2481520));
  }

  /**
   Drop-frame 07:50:00;17 - 11:50:00;17: the difference -431568 takes the
   label of 2157839, 19:59:59;29, one frame on, 20:00:00;00, and hours 7 - 11.
   */
  lemma Df30SubtractionUnderZeroCase()
    ensures var a := TimecodeFactory.CreateTimeCode(Df30, 7, 50, 0, 17);
      var b := TimecodeFactory.CreateTimeCode(Df30, 11, 50, 0, 17);
      && a.Success? && b.Success?
      && Timecodes.Subtract(a.value, b.value) == Mutation(Timecode(Df30, -4, 0, 0, 0, -431568), None)
  {
    Df30SubtractionUnderZeroFacts();
    assert TimecodeFactory.CreateTimeCode(Df30, 7, 50, 0, 17) == Success(Timecode(Df30, 7, 50, 0, 17, 845171));
    assert TimecodeFactory.CreateTimeCode(Df30, 11, 50, 0, 17) == Success(Timecode(Df30, 11, 50, 0, 17, 1276739));
  }

  lemma Df30SubtractionUnderZeroFacts()
    ensures FrameDropCalculation(Units(7, 50, 0, 17)) == 845171
    ensures FrameDropCalculation(Units(11, 50, 0, 17)) == 1276739
    ensures Decode(Df30, 2157839) == Units(19, 59, 59, 29)
    ensures Df30Timecode.FrameAdditionCalculation(Units(19, 59, 59, 29)) == Units(20, 0, 0, 0)
  {
    assert Decode(Df30, 2157839) == Units(19, 59, 59, 29) by {
      DivModBy(2157839, 17982, 119, 17981);
      DivModBy(17979, 1798, 9, 1797);
      assert ReverseDropFrame(2157839) == 1800 * 1199 + 1799;
      Clock30(1199, 1799);
    }
  }

  lemma Fps25ChainedSubtractionFacts()
    ensures Encode(Fps25, Units(5, 5, 15, 20)) == 457895
    ensures Encode(Fps25, Units(23, 59, 59, 24)) == 2159999
    ensures Decode(Fps25, 457896) == Units(5, 5, 15, 21)
    ensures Decode(Fps25, -1702103) == Units(-18, -54, -44, -3)
  {
    assert CountUnits(25, 1702103) == Units(18, 54, 44, 3) by {
      DivModBy(1702103, 90000, 18, 82103);
      DivModBy(82103, 1500, 54, 1103);
      DivModBy(1103, 25, 44, 3);
    }
    CountUnitsNegate(25, 1702103);
    assert Decode(Fps25, 457896) == Units(5, 5, 15, 21) by {
      DivModBy(457896, 90000, 5, 7896);
      DivModBy(7896, 1500, 5, 396);
      DivModBy(396, 25, 15, 21);
    }
  }

  /**
   25 fps 05:05:15:20 - 23:59:59:24 leaves hours -18 and the clock face of
   2160000 - 1702104 without an exception. Subtracting again throws, after
   committing hours -41 and the truncated (all non-positive) units of
   2160000 - 3862103, a negative count.
   */
  lemma Fps25ChainedSubtractionCase()
    ensures var a := TimecodeFactory.CreateTimeCode(Fps25, 5, 5, 15, 20);
      var b := TimecodeFactory.CreateTimeCode(Fps25, 23, 59, 59, 24);
      && a.Success? && b.Success?
      && var once := Timecodes.Subtract(a.value, b.value);
      && once == Mutation(Timecode(Fps25, -18, 5, 15, 21, -1702104), None)
      && Timecodes.Subtract(once.state, b.value)
           == Mutation(Timecode(Fps25, -41, -54, -44, -3, -3862103), Some(ResultLesserLimit))
  {
    Fps25ChainedSubtractionFacts();
    var a := TimecodeFactory.CreateTimeCode(Fps25, 5, 5, 15, 20);
    var b := TimecodeFactory.CreateTimeCode(Fps25, 23, 59, 59, 24);
    assert a == Success(Timecode(Fps25, 5, 5, 15, 20, 457895));
    assert b == Success(Timecode(Fps25, 23, 59, 59, 24, 2159999));
  }
}
