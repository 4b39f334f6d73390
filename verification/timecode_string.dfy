/**
 `TimecodeString`: a timecode built from a rate name and a value string
 (either a frame count or `hh:mm:ss:ff`), remembering which form it was given
 in so that it can answer with the other one.
 */
module TimecodeStrings {
  import opened JavaInt
  import opened JavaText
  import opened TimecodeException
  import opened FrameRateType
  import opened TimecodeCodec
  import opened TimecodeBase
  import opened TimecodeInputType
  import TimecodeFactory
  import Timecodes

  datatype TimecodeString = TimecodeString(timecode: Timecode, inputType: InputType)

  // ----- java.util.StringTokenizer with the delimiters ":;" -----

  predicate IsDelimiter(c: char) {
    c == ':' || c == ';'
  }

  /** A token: a non-empty run of characters that are not delimiters. */
  predicate IsToken(t: string) {
    |t| >= 1 && forall i :: 0 <= i < |t| ==> !IsDelimiter(t[i])
  }

  /** The end of the run of non-delimiters starting at `i`: the next delimiter, or the end of `s`. */
  function RunEnd(s: string, i: nat): (j: nat)
    requires i <= |s|
    ensures i <= j <= |s|
    ensures forall k :: i <= k < j ==> !IsDelimiter(s[k])
    ensures j < |s| ==> IsDelimiter(s[j])
    decreases |s| - i
  {
    if i == |s| || IsDelimiter(s[i]) then i else RunEnd(s, i + 1)
  }

  predicate AllDelimiters(g: string) {
    forall i :: 0 <= i < |g| ==> IsDelimiter(g[i])
  }

  /** `s` with every delimiter removed. */
  function Strip(s: string): string {
    if |s| == 0 then [] else (if IsDelimiter(s[0]) then [] else [s[0]]) + Strip(s[1..])
  }

  /** The strings of `ts` joined end to end. */
  function Concat(ts: seq<string>): string {
    if |ts| == 0 then [] else ts[0] + Concat(ts[1..])
  }

  /** Stripping a string that opens with `j` non-delimiters keeps those `j` characters. */
  lemma {:induction false} StripRun(s: string, j: nat)
    requires j <= |s| && forall k :: 0 <= k < j ==> !IsDelimiter(s[k])
    ensures Strip(s) == s[..j] + Strip(s[j..])
  {
    if j > 0 {
      StripRun(s[1..], j - 1);
      assert s[1..][j - 1..] == s[j..];
      assert [s[0]] + s[1..][..j - 1] == s[..j];
    }
  }

  /**
   The tokens `nextToken` hands out in turn: delimiters are skipped, each token
   is a maximal run of other characters, so no token is empty, and together
   the tokens hold every non-delimiter of `s`, in order.
   */
  function Tokens(s: string): (tokens: seq<string>)
    ensures forall k :: 0 <= k < |tokens| ==> IsToken(tokens[k])
    ensures Concat(tokens) == Strip(s)
    decreases |s|
  {
    if |s| == 0 then []
    else if IsDelimiter(s[0]) then Tokens(s[1..])
    else
      var j := RunEnd(s, 0);
      var rest := Tokens(s[j..]);
      StripRun(s, j);
      assert Concat([s[..j]] + rest) == s[..j] + Concat(rest) by {
        assert ([s[..j]] + rest)[1..] == rest;
      }
      [s[..j]] + rest
  }

  /**
   The string made of `tail` preceded by the tokens `ts`, each token preceded
   by its gap `gaps[k]`.
   */
  function Weave(ts: seq<string>, gaps: seq<string>, tail: string): string
    requires |gaps| == |ts|
    decreases |ts|
  {
    if |ts| == 0 then tail else gaps[0] + ts[0] + Weave(ts[1..], gaps[1..], tail)
  }

  /**
   `ts` are tokens, and the gaps between them are runs of delimiters: the one
   before the first token and the tail may be empty, the others may not.
   */
  predicate Separates(ts: seq<string>, gaps: seq<string>, tail: string) {
    && |gaps| == |ts|
    && (forall k :: 0 <= k < |ts| ==> IsToken(ts[k]))
    && (forall k :: 0 <= k < |gaps| ==> AllDelimiters(gaps[k]))
    && (forall k :: 1 <= k < |gaps| ==> |gaps[k]| >= 1)
    && AllDelimiters(tail)
  }

  /** Leading delimiters yield no token. */
  lemma {:induction false} TokensAfterDelimiters(g: string, x: string)
    requires AllDelimiters(g)
    ensures Tokens(g + x) == Tokens(x)
    decreases |g|
  {
    if |g| > 0 {
      assert (g + x)[0] == g[0];
      assert (g + x)[1..] == g[1..] + x;
      TokensAfterDelimiters(g[1..], x);
    } else {
      assert g + x == x;
    }
  }

  /**
   Tokens separated by runs of delimiters come back out of the tokenizer
   exactly: each token is a maximal run, and no other token appears.
   */
  lemma {:induction false} TokensOfWeave(ts: seq<string>, gaps: seq<string>, tail: string)
    requires Separates(ts, gaps, tail)
    ensures Tokens(Weave(ts, gaps, tail)) == ts
    decreases |ts|
  {
    if |ts| == 0 {
      TokensAfterDelimiters(tail, []);
      assert tail + [] == tail;
    } else {
      assert Separates(ts[1..], gaps[1..], tail);
      TokensOfWeave(ts[1..], gaps[1..], tail);
      WeaveStep(ts, gaps, tail);
    }
  }

  /** One token more: a gap, a token and a woven rest whose tokens are known. */
  lemma WeaveStep(ts: seq<string>, gaps: seq<string>, tail: string)
    requires Separates(ts, gaps, tail) && |ts| >= 1
    requires Tokens(Weave(ts[1..], gaps[1..], tail)) == ts[1..]
    ensures Tokens(Weave(ts, gaps, tail)) == ts
  {
    var rest := Weave(ts[1..], gaps[1..], tail);
    if |ts| > 1 {
      assert rest == gaps[1] + ts[1] + Weave(ts[2..], gaps[2..], tail);
      assert rest[0] == gaps[1][0];
    }
    var s := ts[0] + rest;
    assert s[..|ts[0]|] == ts[0];
    assert s[|ts[0]|..] == rest;
    TokensStep(s, |ts[0]|);
    assert Weave(ts, gaps, tail) == gaps[0] + s;
    TokensAfterDelimiters(gaps[0], s);
  }

  /** Every string is its own tokens, separated by runs of delimiters. */
  lemma {:induction false} WeaveOfTokens(s: string) returns (gaps: seq<string>, tail: string)
    ensures Separates(Tokens(s), gaps, tail)
    ensures Weave(Tokens(s), gaps, tail) == s
    decreases |s|
  {
    if |s| == 0 {
      gaps, tail := [], [];
    } else if IsDelimiter(s[0]) {
      var gaps', tail' := WeaveOfTokens(s[1..]);
      gaps, tail := WeaveAfterDelimiter(s, gaps', tail');
    } else {
      var j := RunEnd(s, 0);
      var gaps', tail' := WeaveOfTokens(s[j..]);
      gaps, tail := WeaveAfterToken(s, j, gaps', tail');
    }
  }

  /** A leading delimiter joins the first gap, or the tail when no token follows. */
  lemma WeaveAfterDelimiter(s: string, gaps': seq<string>, tail': string) returns (gaps: seq<string>, tail: string)
    requires |s| >= 1 && IsDelimiter(s[0])
    requires Separates(Tokens(s[1..]), gaps', tail') && Weave(Tokens(s[1..]), gaps', tail') == s[1..]
    ensures Separates(Tokens(s), gaps, tail)
    ensures Weave(Tokens(s), gaps, tail) == s
  {
    var ts := Tokens(s[1..]);
    assert Tokens(s) == ts;
    assert s == [s[0]] + s[1..];
    if |ts| == 0 {
      gaps, tail := [], [s[0]] + tail';
      DelimitersCons(s[0], tail');
    } else {
      gaps, tail := [[s[0]] + gaps'[0]] + gaps'[1..], tail';
      WidenFirstGap(s[0], ts, gaps', tail');
    }
  }

  lemma DelimitersCons(c: char, g: string)
    requires IsDelimiter(c) && AllDelimiters(g)
    ensures AllDelimiters([c] + g)
  {
    forall i | 0 <= i < |[c] + g| ensures IsDelimiter(([c] + g)[i]) {
      if i > 0 {
        assert ([c] + g)[i] == g[i - 1];
      }
    }
  }

  /** A delimiter put in front of the first gap keeps the separation and fronts the woven string. */
  lemma WidenFirstGap(c: char, ts: seq<string>, gaps: seq<string>, tail: string)
    requires IsDelimiter(c) && |ts| >= 1 && Separates(ts, gaps, tail)
    ensures var gaps' := [[c] + gaps[0]] + gaps[1..];
      Separates(ts, gaps', tail) && Weave(ts, gaps', tail) == [c] + Weave(ts, gaps, tail)
  {
    var first := [c] + gaps[0];
    var gaps' := [first] + gaps[1..];
    assert gaps'[0] == first && gaps'[1..] == gaps[1..];
    DelimitersCons(c, gaps[0]);
    assert forall k :: 1 <= k < |gaps'| ==> gaps'[k] == gaps[k];
    var rest := Weave(ts[1..], gaps[1..], tail);
    assert Weave(ts, gaps', tail) == first + ts[0] + rest;
    assert Weave(ts, gaps, tail) == gaps[0] + ts[0] + rest;
    assert first + ts[0] + rest == [c] + (gaps[0] + ts[0] + rest);
  }

  /** A leading token comes with an empty gap; the rest opens with a delimiter, so its first gap is not empty. */
  lemma WeaveAfterToken(s: string, j: nat, gaps': seq<string>, tail': string) returns (gaps: seq<string>, tail: string)
    requires |s| >= 1 && !IsDelimiter(s[0]) && j == RunEnd(s, 0)
    requires Separates(Tokens(s[j..]), gaps', tail') && Weave(Tokens(s[j..]), gaps', tail') == s[j..]
    ensures Separates(Tokens(s), gaps, tail)
    ensures Weave(Tokens(s), gaps, tail) == s
  {
    var ts := Tokens(s[j..]);
    assert Tokens(s) == [s[..j]] + ts;
    assert IsToken(s[..j]) by {
      assert Tokens(s)[0] == s[..j];
    }
    gaps, tail := [[]] + gaps', tail';
    if |ts| > 0 {
      var w := Weave(ts, gaps', tail');
      assert w == gaps'[0] + ts[0] + Weave(ts[1..], gaps'[1..], tail');
      assert |gaps'[0]| >= 1;
    }
    PrependToken(s[..j], ts, gaps', tail');
    assert s == s[..j] + s[j..];
  }

  /** A token put in front, with an empty gap, before a woven string that opens with a delimiter. */
  lemma PrependToken(t: string, ts: seq<string>, gaps: seq<string>, tail: string)
    requires IsToken(t) && Separates(ts, gaps, tail) && (|ts| > 0 ==> |gaps[0]| >= 1)
    ensures Separates([t] + ts, [[]] + gaps, tail)
    ensures Weave([t] + ts, [[]] + gaps, tail) == t + Weave(ts, gaps, tail)
  {
    var ts', gaps' := [t] + ts, [[]] + gaps;
    assert ts'[0] == t && ts'[1..] == ts;
    assert gaps'[0] == [] && gaps'[1..] == gaps;
    assert forall k :: 1 <= k < |ts'| ==> ts'[k] == ts[k - 1];
    assert forall k :: 1 <= k < |gaps'| ==> gaps'[k] == gaps[k - 1];
    assert AllDelimiters(gaps'[0]);
    assert Weave(ts', gaps', tail) == [] + t + Weave(ts, gaps, tail);
  }

  /** A string opening with a token followed by a delimiter (or nothing) yields that token first. */
  lemma {:induction false} TokensStep(s: string, j: nat)
    requires 1 <= j <= |s| && IsToken(s[..j]) && (j < |s| ==> IsDelimiter(s[j]))
    ensures Tokens(s) == [s[..j]] + Tokens(s[j..])
  {
    var e := RunEnd(s, 0);
    if e < j {
      assert false;
    } else if e > j {
      assert false;
    }
  }

  /** Two digits make a token. */
  lemma TwoDigitToken(s: string, i: nat)
    requires i + 2 <= |s| && IsDigit(s[i]) && IsDigit(s[i + 1])
    ensures IsToken(s[i..i + 2])
  {
    assert s[i..i + 2][0] == s[i] && s[i..i + 2][1] == s[i + 1];
  }

  /** A units-form string splits into its four two-character groups. */
  lemma TokensOfUnitsForm(s: string)
    requires IsUnitsForm(s)
    ensures Tokens(s) == [s[0..2], s[3..5], s[6..8], s[9..11]]
  {
    var ts := [s[0..2], s[3..5], s[6..8], s[9..11]];
    var gaps := [[], [s[2]], [s[5]], [s[8]]];
    assert Separates(ts, gaps, []) by {
      TwoDigitToken(s, 0);
      TwoDigitToken(s, 3);
      TwoDigitToken(s, 6);
      TwoDigitToken(s, 9);
      forall k | 0 <= k < |ts| ensures IsToken(ts[k]) {
      }
      forall k | 0 <= k < |gaps| ensures AllDelimiters(gaps[k]) {
        assert k == 0 || gaps[k] == [s[3 * k - 1]];
      }
    }
    assert Weave(ts[4..], gaps[4..], []) == [];
    assert Weave(ts[3..], gaps[3..], []) == s[8..] by {
      assert ts[3..][0] == s[9..11] && gaps[3..][0] == [s[8]] && ts[3..][1..] == ts[4..] && gaps[3..][1..] == gaps[4..];
    }
    assert Weave(ts[2..], gaps[2..], []) == s[5..] by {
      assert ts[2..][0] == s[6..8] && gaps[2..][0] == [s[5]] && ts[2..][1..] == ts[3..] && gaps[2..][1..] == gaps[3..];
      assert s[5..] == [s[5]] + s[6..8] + s[8..];
    }
    assert Weave(ts[1..], gaps[1..], []) == s[2..] by {
      assert ts[1..][0] == s[3..5] && gaps[1..][0] == [s[2]] && ts[1..][1..] == ts[2..] && gaps[1..][1..] == gaps[2..];
      assert s[2..] == [s[2]] + s[3..5] + s[5..];
    }
    assert Weave(ts, gaps, []) == s by {
      assert s == [] + s[0..2] + s[2..];
    }
    TokensOfWeave(ts, gaps, []);
  }

  // ----- Integer.valueOf -----

  /** Java's `Integer.valueOf(String)` for ASCII input: an optional sign, one or more digits, in `int` range. */
  function IntegerValueOf(s: string): (r: Result<int>)
    ensures r.Success? ==> IntMin <= r.value <= IntMax
    ensures r.Failure? ==> r.error == NumberFormat(s)
    ensures |s| >= 1 && AllDigits(s) ==>
      (r.Success? <==> DigitsValue(s) <= IntMax) && (r.Success? ==> r.value == DigitsValue(s))
    ensures r.Success? ==> |s| >= 1 && (AllDigits(s) || (|s| >= 2 && (s[0] == '-' || s[0] == '+') && AllDigits(s[1..])))
  {
    if |s| >= 2 && s[0] == '-' && AllDigits(s[1..]) then
      var magnitude: int := DigitsValue(s[1..]);
      if magnitude <= -IntMin then Success(-magnitude) else Failure(NumberFormat(s))
    else if |s| >= 2 && s[0] == '+' && AllDigits(s[1..]) then
      if DigitsValue(s[1..]) <= IntMax then Success(DigitsValue(s[1..])) else Failure(NumberFormat(s))
    else if |s| >= 1 && AllDigits(s) then
      if DigitsValue(s) <= IntMax then Success(DigitsValue(s)) else Failure(NumberFormat(s))
    else
      Failure(NumberFormat(s))
  }

  /** Every `int` reads back from its own decimal rendering. */
  lemma IntegerValueOfIntToString(n: int)
    ensures IntMin <= n <= IntMax ==> IntegerValueOf(IntToString(n)) == Success(n)
  {
    if n >= 0 {
      DigitsValueOfNatToString(n);
    } else {
      var s := IntToString(n);
      assert s[1..] == NatToString(-n);
      DigitsValueOfNatToString(-n);
    }
  }

  // ----- Parsing the value -----

  /**
   `parseInputByUnits`: the four tokens of a units-form string, each read with
   `Integer.valueOf`; every field is the two digits of its group.
   */
  function ParseInputByUnits(s: string): (u: Units)
    requires IsUnitsForm(s)
    ensures u == Units(DigitsValue(s[0..2]), DigitsValue(s[3..5]), DigitsValue(s[6..8]), DigitsValue(s[9..11]))
    ensures 0 <= u.hours < 100 && 0 <= u.minutes < 100 && 0 <= u.seconds < 100 && 0 <= u.frames < 100
  {
    var tokens := Tokens(s);
    TokensOfUnitsForm(s);
    TwoDigits(s[0..2]);
    TwoDigits(s[3..5]);
    TwoDigits(s[6..8]);
    TwoDigits(s[9..11]);
    Units(IntegerValueOf(tokens[0]).value, IntegerValueOf(tokens[1]).value,
          IntegerValueOf(tokens[2]).value, IntegerValueOf(tokens[3]).value)
  }

  /** Two digits denote a number below 100, and two-digit strings denoting the same number are equal. */
  lemma TwoDigits(a: string)
    requires |a| == 2 && AllDigits(a)
    ensures DigitsValue(a) == 10 * DigitValue(a[0]) + DigitValue(a[1]) < 100
  {
    assert a[..1][..0] == [];
    assert DigitsValue(a[..1]) == DigitValue(a[0]);
  }

  lemma TwoDigitsDetermined(a: string, b: string)
    requires |a| == 2 && AllDigits(a) && |b| == 2 && AllDigits(b) && DigitsValue(a) == DigitsValue(b)
    ensures a == b
  {
    TwoDigits(a);
    TwoDigits(b);
    assert a[0] == b[0] && a[1] == b[1];
  }

  // ----- The three `of` constructors -----

  /** `of(frameRateString, frameCount)`: the rate name is parsed, then the rate's factory builds from the count. */
  function OfFrameCount(rateName: string, frameCount: int): (r: Result<TimecodeString>)
    ensures FrameRateType.FromString(rateName).Failure? ==> r == Failure(TimecodeError(InvalidFrameRate))
    ensures r.Success? <==>
      FrameRateType.FromString(rateName).Success?
      && 0 <= frameCount < FrameCountLimit(FrameRateType.FromString(rateName).value)
    ensures FrameRateType.FromString(rateName).Success? && frameCount < 0 ==>
      r == Failure(IllegalArgument(FrameCountLess0, ErrorMessage(FrameCountLess0)))
    ensures FrameRateType.FromString(rateName).Success? && frameCount >= FrameCountLimit(FrameRateType.FromString(rateName).value)
      ==> var limit := FrameCountLimit(FrameRateType.FromString(rateName).value);
      r == Failure(IllegalArgument(FrameCountGreaterLimit, ErrorMessage(FrameCountGreaterLimit) + " " + IntToString(limit)))
    ensures r.Success? ==>
      && r.value.inputType == FrameCountInput
      && FrameRateType.FromString(rateName) == Success(r.value.timecode.rate)
      && r.value.timecode.frameCount == frameCount
      && Counted(r.value.timecode.rate, r.value.timecode.Label())
      && Encode(r.value.timecode.rate, r.value.timecode.Label()) == frameCount
  {
    var rate :- FrameRateType.FromString(rateName);
    var timecode :- TimecodeFactory.CreateTimeCodeFromCount(rate, frameCount);
    Success(TimecodeString(timecode, FrameCountInput))
  }

  /** `of(frameRateString, hh, mm, ss, ff)`: the rate name is parsed, then the rate's factory builds from the units. */
  function OfUnits(rateName: string, hours: int, minutes: int, seconds: int, frames: int): (r: Result<TimecodeString>)
    ensures FrameRateType.FromString(rateName).Failure? ==> r == Failure(TimecodeError(InvalidFrameRate))
    ensures r.Success? <==>
      FrameRateType.FromString(rateName).Success?
      && AreValidValues(FrameRateType.FromString(rateName).value, hours, minutes, seconds, frames)
    ensures FrameRateType.FromString(rateName).Success? && r.Failure? ==>
      r.error.IllegalArgument? && r.error.errorCase == InvalidTimecode
    ensures r.Success? ==>
      && r.value.inputType == UnitsInput
      && FrameRateType.FromString(rateName) == Success(r.value.timecode.rate)
      && r.value.timecode.Label() == Units(hours, minutes, seconds, frames)
      && r.value.timecode.frameCount == Encode(r.value.timecode.rate, r.value.timecode.Label())
  {
    var rate :- FrameRateType.FromString(rateName);
    var timecode :- TimecodeFactory.CreateTimeCode(rate, hours, minutes, seconds, frames);
    Success(TimecodeString(timecode, UnitsInput))
  }

  /**
   `of(frameRateString, value)`: the value is classified before the rate name
   is looked at, so a malformed value is reported as such whatever the rate;
   a frame count too large for an `int` fails in `Integer.valueOf`.
   */
  function OfValue(rateName: string, value: string): (r: Result<TimecodeString>)
    ensures !IsUnitsForm(value) && !IsFrameCountForm(value) ==> r == Failure(TimecodeError(InvalidInputFormat))
    ensures IsFrameCountForm(value) && DigitsValue(value) > IntMax ==> r == Failure(NumberFormat(value))
    ensures IsFrameCountForm(value) && DigitsValue(value) <= IntMax ==> r == OfFrameCount(rateName, DigitsValue(value))
    ensures IsUnitsForm(value) ==>
      r == OfUnits(rateName, DigitsValue(value[0..2]), DigitsValue(value[3..5]),
                   DigitsValue(value[6..8]), DigitsValue(value[9..11]))
  {
    FormsDisjoint(value);
    var inputType :- TimecodeInputType.FromString(value);
    if inputType == FrameCountInput then
      var frameCount :- IntegerValueOf(value);
      OfFrameCount(rateName, frameCount)
    else
      var u := ParseInputByUnits(value);
      OfUnits(rateName, u.hours, u.minutes, u.seconds, u.frames)
  }

  /**
   `getOppositeRepresentation`: the frame count for a value given in units,
   the representation for a value given as a count. The count reads back with
   `Integer.valueOf`; the representation is a units form whose groups are the
   fields and whose last separator is the class's.
   */
  function GetOppositeRepresentation(ts: TimecodeString): (s: string)
    ensures ts.inputType == UnitsInput && IntMin <= ts.timecode.frameCount <= IntMax ==>
      IntegerValueOf(s) == Success(ts.timecode.frameCount)
    ensures ts.inputType == UnitsInput ==> (IsFrameCountForm(s) <==> ts.timecode.frameCount >= 0)
    ensures ts.inputType == FrameCountInput && Valid(ts.timecode.rate, ts.timecode.Label()) ==>
      && IsUnitsForm(s) && ParseInputByUnits(s) == ts.timecode.Label()
      && s[8] == Timecodes.FrameSeparator(ts.timecode.rate)
  {
    if ts.inputType == UnitsInput then
      IntegerValueOfIntToString(ts.timecode.frameCount);
      IntToString(ts.timecode.frameCount)
    else
      Timecodes.GetStringRepresentation(ts.timecode)
  }

  // ----- Round trips through the opposite representation -----

  /**
   A frame count in range, given as a string, answers with a representation;
   given that representation, the library answers with the original count string.
   */
  lemma CountStringRoundTrip(rate: FrameRate, n: int)
    requires 0 <= n < FrameCountLimit(rate)
    ensures var first := OfValue(ShortName(rate), IntToString(n));
      && first.Success? && first.value.inputType == FrameCountInput
      && var shown := GetOppositeRepresentation(first.value);
      && IsUnitsForm(shown)
      && var second := OfValue(ShortName(rate), shown);
      && second.Success? && second.value.inputType == UnitsInput
      && GetOppositeRepresentation(second.value) == IntToString(n)
  {
    FromStringOfShortName(rate);
    DigitsValueOfNatToString(n);
    var first := OfValue(ShortName(rate), IntToString(n));
    assert first == OfFrameCount(ShortName(rate), n);
    var u := first.value.timecode.Label();
    var shown := GetOppositeRepresentation(first.value);
    assert ParseInputByUnits(shown) == u;
    var second := OfValue(ShortName(rate), shown);
    assert second == OfUnits(ShortName(rate), u.hours, u.minutes, u.seconds, u.frames);
    assert second.value.timecode.frameCount == n;
  }

  /**
   A units string whose last separator is the class's, naming a label the
   class counts and whose count is in range, answers with its count; given
   that count, the library answers with the original units string.
   */
  lemma UnitsStringRoundTrip(rate: FrameRate, s: string)
    requires IsUnitsForm(s) && s[8] == Timecodes.FrameSeparator(rate)
    requires Valid(rate, ParseInputByUnits(s))
    requires rate == Df30 ==> !IsDroppedLabel(ParseInputByUnits(s))
    requires Encode(rate, ParseInputByUnits(s)) < FrameCountLimit(rate)
    ensures var first := OfValue(ShortName(rate), s);
      && first.Success? && first.value.inputType == UnitsInput
      && var shown := GetOppositeRepresentation(first.value);
      && shown == IntToString(Encode(rate, ParseInputByUnits(s)))
      && var second := OfValue(ShortName(rate), shown);
      && second.Success? && second.value.inputType == FrameCountInput
      && GetOppositeRepresentation(second.value) == s
  {
    FromStringOfShortName(rate);
    var u := ParseInputByUnits(s);
    var n := Encode(rate, u);
    if rate == Df30 {
      DropFrameUnitsRoundTrip(u);
    } else {
      NominalUnitsRoundTrip(rate, u);
    }
    var first := OfValue(ShortName(rate), s);
    assert first.value.timecode.frameCount == n;
    var shown := GetOppositeRepresentation(first.value);
    DigitsValueOfNatToString(n);
    var second := OfValue(ShortName(rate), shown);
    assert second == OfFrameCount(ShortName(rate), n);
    assert second.value.timecode.Label() == u;
    var back := GetOppositeRepresentation(second.value);
    SameUnitsForm(s, back);
  }

  /** A units form is determined by its four values and its last separator. */
  lemma SameUnitsForm(s: string, t: string)
    requires IsUnitsForm(s) && IsUnitsForm(t) && s[8] == t[8]
    requires DigitsValue(s[0..2]) == DigitsValue(t[0..2]) && DigitsValue(s[3..5]) == DigitsValue(t[3..5])
    requires DigitsValue(s[6..8]) == DigitsValue(t[6..8]) && DigitsValue(s[9..11]) == DigitsValue(t[9..11])
    ensures s == t
  {
    TwoDigitsDetermined(s[0..2], t[0..2]);
    TwoDigitsDetermined(s[3..5], t[3..5]);
    TwoDigitsDetermined(s[6..8], t[6..8]);
    TwoDigitsDetermined(s[9..11], t[9..11]);
    assert s == s[0..2] + [s[2]] + s[3..5] + [s[5]] + s[6..8] + [s[8]] + s[9..11];
    assert t == t[0..2] + [t[2]] + t[3..5] + [t[5]] + t[6..8] + [t[8]] + t[9..11];
  }
}
