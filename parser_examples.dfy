/** getMillis on particular texts: what the primary form reads, where the
    clock form takes over, and what it rejects. */
module ParserExamples {
  import opened Numbers
  import opened Text
  import opened DurationPattern
  import opened PatternProperties
  import opened TextProperties
  import opened Parser
  import opened ParserProperties

  /** `\w*` after the hours letter also takes "30m", so "1h30m" is one hour. */
  lemma HoursSwallowMinutes()
    ensures InModel("1h30m") && ParseDuration("1h30m") == Ok(3_600_000)
  {
    var ps := [Piece("1", "", 2, "30m")];
    HoursOnlyPieces();
    ReadBack(ps);
    HoursOnlyText();
  }

  lemma HoursOnlyPieces()
    ensures Ordered([Piece("1", "", 2, "30m")], 0) && WordsLower([Piece("1", "", 2, "30m")])
    ensures Fits([Piece("1", "", 2, "30m")], 0) && PiecesSum([Piece("1", "", 2, "30m")], 0) == 3_600_000
  {
    assert DigitsValue("1") == 1;
  }

  lemma HoursOnlyText()
    ensures Render([Piece("1", "", 2, "30m")], 0) == "1h30m"
  {
  }

  /** With a space in between, the minutes are read as their own component. */
  lemma HoursThenMinutes()
    ensures InModel("1h 30m") && ParseDuration("1h 30m") == Ok(5_400_000)
  {
    var ps := [Piece("1", "", 2, ""), Piece("30", "", 3, "")];
    HoursMinutesPieces();
    ReadBack(ps);
    HoursMinutesText();
  }

  lemma HoursMinutesPieces()
    ensures Ordered([Piece("1", "", 2, ""), Piece("30", "", 3, "")], 0)
    ensures WordsLower([Piece("1", "", 2, ""), Piece("30", "", 3, "")])
    ensures Fits([Piece("1", "", 2, ""), Piece("30", "", 3, "")], 0)
    ensures PiecesSum([Piece("1", "", 2, ""), Piece("30", "", 3, "")], 0) == 5_400_000
  {
    assert DigitsValue("1") == 1;
    assert DigitsValue("30") == 30 by { assert "30"[..1] == "3"; }
    var ps := [Piece("1", "", 2, ""), Piece("30", "", 3, "")];
    assert ps[1..] == [Piece("30", "", 3, "")];
  }

  lemma HoursMinutesText()
    ensures Render([Piece("1", "", 2, ""), Piece("30", "", 3, "")], 0) == "1h 30m"
  {
    var ps := [Piece("1", "", 2, ""), Piece("30", "", 3, "")];
    assert ps[1..] == [Piece("30", "", 3, "")];
  }

  /** "01:30:00" does not match the pattern, and the clock form reads it as
      one and a half hours. */
  lemma ClockHoursMinutes()
    ensures InModel("01:30:00") && ParseDuration("01:30:00") == Ok(5_400_000)
  {
    ClockFacts("01", "30:00");
    ColonNoMatch("01", "30:00");
    ClockParts();
    assert ClockSeconds([1, 30, 0]) * 1000 == 5_400_000 by { ClockSecondsThree(1, 30, 0); }
  }

  lemma ClockFacts(d: string, rest: string)
    requires d == "01" && rest == "30:00"
    ensures AllDigits(d) && d + ":" + rest == "01:30:00"
    ensures Normalize("01:30:00") == "01:30:00"
  {
    ClockNormal("01:30:00");
  }

  lemma ClockNormal(s: string)
    requires s == "01:30:00"
    ensures Normalize(s) == s
  {
    ClockPlain(s);
    NormalizeOfPlain(s);
  }

  lemma ClockPlain(s: string)
    requires s == "01:30:00"
    ensures NoUpper(s) && !IsWhitespace(s[0]) && !IsWhitespace(s[|s| - 1])
  {
    assert forall i :: 0 <= i < |s| ==> IsDigit(s[i]) || s[i] == ':';
  }

  lemma ClockParts()
    ensures SplitColon("01:30:00") == ["01", "30", "00"]
    ensures ParseInts(["01", "30", "00"]) == Some([1, 30, 0])
  {
    NoColons("01", "30", "00");
    ClockSplit("01", "30", "00");
    ClockInts();
  }

  lemma NoColons(h: string, m: string, sec: string)
    requires h == "01" && m == "30" && sec == "00"
    ensures ':' !in h && ':' !in m && ':' !in sec && h + ":" + m + ":" + sec == "01:30:00"
  {
  }

  lemma ClockInts()
    ensures ParseInts(["01", "30", "00"]) == Some([1, 30, 0])
  {
    assert DigitsValue("01") == 1 by { assert "01"[..1] == "0"; }
    assert DigitsValue("30") == 30 by { assert "30"[..1] == "3"; }
    assert DigitsValue("00") == 0 by { assert "00"[..1] == "0"; }
    ParseThree("01", "30", "00");
  }

  lemma ParseThree(a: string, b: string, c: string)
    ensures ParseInts([a, b, c]) == if ParseInt(a).Some? && ParseInt(b).Some? && ParseInt(c).Some?
                                    then Some([ParseInt(a).value, ParseInt(b).value, ParseInt(c).value]) else None
  {
    var none: seq<string> := [];
    assert ParseInts(none) == Some([]);
    ParseSnoc(none, a);
    assert none + [a] == [a];
    ParseSnoc([a], b);
    assert [a] + [b] == [a, b];
    ParseSnoc([a, b], c);
    assert [a, b] + [c] == [a, b, c];
    if ParseInt(a).Some? && ParseInt(b).Some? && ParseInt(c).Some? {
      var x, y, z := ParseInt(a).value, ParseInt(b).value, ParseInt(c).value;
      var e: seq<int> := [];
      assert ParseInts(none).value == e;
      assert e + [x] == [x] && [x] + [y] == [x, y] && [x, y] + [z] == [x, y, z];
      assert ParseInts([a]) == Some([x]);
      assert ParseInts([a, b]) == Some([x, y]);
    }
  }

  lemma ParseSnoc(parts: seq<string>, x: string)
    ensures ParseInts(parts + [x]) == if ParseInts(parts).Some? && ParseInt(x).Some?
                                      then Some(ParseInts(parts).value + [ParseInt(x).value]) else None
  {
    assert (parts + [x])[..|parts|] == parts;
  }

  lemma ClockSplit(h: string, m: string, sec: string)
    requires ':' !in h && ':' !in m && ':' !in sec
    ensures SplitColon(h + ":" + m + ":" + sec) == [h, m, sec]
  {
    assert h + ":" + m + ":" + sec == h + ":" + (m + ":" + sec);
    SplitAfter(h, m + ":" + sec);
    SplitAfter(m, sec);
    SplitNoColon(sec);
  }

  /** Digits alone are no component; the clock form reads them as seconds. */
  lemma BareSeconds()
    ensures InModel("90") && ParseDuration("90") == Ok(90_000)
  {
    BareFacts("90");
    NormalizeOfPlain("90");
    DigitsOnlyNoMatch("90");
    SplitNoColon("90");
    ParseOne("90");
  }

  lemma BareFacts(s: string)
    requires s == "90"
    ensures AllDigits(s) && NoUpper(s) && !IsWhitespace(s[0]) && !IsWhitespace(s[|s| - 1]) && ':' !in s
    ensures ParseInt(s) == Some(90)
  {
    assert DigitsValue(s) == 90 by { assert s[..1] == "9"; }
  }

  lemma ParseOne(a: string)
    ensures ParseInts([a]) == if ParseInt(a).Some? then Some([ParseInt(a).value]) else None
  {
    assert [a][..0] == [];
    var e: seq<string> := [];
    assert ParseInts(e) == Some([]);
    if ParseInt(a).Some? {
      var x := ParseInt(a).value;
      var none: seq<int> := [];
      assert none + [x] == [x];
    }
  }

  /** A text that is neither form is rejected with the text itself. */
  lemma NotADuration()
    ensures InModel("not-a-duration") && ParseDuration("not-a-duration") == FormatError("not-a-duration")
  {
    var s := "not-a-duration";
    WordsFacts(s);
    NormalizeOfPlain(s);
    NoDigitNoMatch(s);
    SplitNoColon(s);
    ParseOne(s);
  }

  lemma WordsFacts(s: string)
    requires s == "not-a-duration"
    ensures NoUpper(s) && !IsWhitespace(s[0]) && !IsWhitespace(s[|s| - 1]) && !IsDigit(s[0]) && ':' !in s
    ensures ParseInt(s) == None
  {
    assert !IsDigit(s[0]);
  }

  /** Four colon-separated parts are more than the clock form takes. */
  lemma FourParts()
    ensures InModel("1:2:3:4") && ParseDuration("1:2:3:4") == FormatError("1:2:3:4")
  {
    FourFacts("1:2:3:4");
    NormalizeOfPlain("1:2:3:4");
    ColonNoMatch("1", "2:3:4");
    SplitAfter("1", "2:3:4");
    SplitAfter("2", "3:4");
    SplitAfter("3", "4");
    SplitNoColon("4");
  }

  lemma FourFacts(s: string)
    requires s == "1:2:3:4"
    ensures NoUpper(s) && !IsWhitespace(s[0]) && !IsWhitespace(s[|s| - 1])
    ensures AllDigits("1") && s == "1" + ":" + "2:3:4"
    ensures s == "1" + ":" + "2:3:4" && "2:3:4" == "2" + ":" + "3:4" && "3:4" == "3" + ":" + "4"
    ensures ':' !in "1" && ':' !in "2" && ':' !in "3" && ':' !in "4"
  {
    assert forall i :: 0 <= i < |s| ==> IsDigit(s[i]) || s[i] == ':';
  }

  /** The clock form computes in `Int`: 600 hours wrap around to a negative
      count of milliseconds. */
  lemma ClockWraps()
    ensures InModel("600:00:00") && ParseDuration("600:00:00") == Ok(-2_134_967_296)
  {
    WrapPlain("600:00:00");
    ColonNoMatch("600", "00:00");
    WrapParts();
    WrapValue();
  }

  lemma WrapPlain(s: string)
    requires s == "600:00:00"
    ensures Normalize(s) == s && AllDigits("600") && s == "600" + ":" + "00:00"
  {
    WrapFacts(s);
    NormalizeOfPlain(s);
  }

  lemma WrapParts()
    ensures SplitColon("600:00:00") == ["600", "00", "00"]
    ensures ParseInts(["600", "00", "00"]) == Some([600, 0, 0])
  {
    WrapFacts("600:00:00");
    ClockSplit("600", "00", "00");
    WrapInts();
  }

  lemma WrapValue()
    ensures Int32(ClockSeconds([600, 0, 0]) * 1000) == -2_134_967_296
  {
    ClockSecondsThree(600, 0, 0);
    assert ClockSeconds([600, 0, 0]) * 1000 == 2_160_000_000;
  }

  lemma WrapFacts(s: string)
    requires s == "600:00:00"
    ensures NoUpper(s) && !IsWhitespace(s[0]) && !IsWhitespace(s[|s| - 1])
    ensures AllDigits("600") && s == "600" + ":" + "00:00"
    ensures s == "600" + ":" + "00" + ":" + "00" && ':' !in "600" && ':' !in "00"
  {
    assert forall i :: 0 <= i < |s| ==> IsDigit(s[i]) || s[i] == ':';
  }

  lemma WrapInts()
    ensures ParseInts(["600", "00", "00"]) == Some([600, 0, 0])
  {
    assert DigitsValue("600") == 600 by {
      assert "600"[..2] == "60" && "60"[..1] == "6";
    }
    assert DigitsValue("00") == 0 by { assert "00"[..1] == "0"; }
    ParseThree("600", "00", "00");
  }

  /** The clock form reads the text as given: a blank in front of the hours
      makes `toInt` throw, although the pattern ignores it. */
  lemma ClockNotTrimmed()
    ensures InModel(" 1:30") && ParseDuration(" 1:30") == FormatError(" 1:30")
  {
    PaddedMatch(" 1:30");
    PaddedParts(" 1:30");
  }

  lemma PaddedMatch(s: string)
    requires s == " 1:30"
    ensures Match(Normalize(s)).None?
  {
    PaddedNormal(s);
    PaddedDigits("1:30");
    ColonNoMatch("1", "30");
  }

  lemma PaddedNormal(s: string)
    requires s == " 1:30"
    ensures Normalize(s) == "1:30"
  {
    PaddedFacts(s);
    TrimPadded(" ", "1:30", "");
    PaddedPlain("1:30");
    NormalizeOfPlain("1:30");
  }

  lemma PaddedFacts(s: string)
    requires s == " 1:30"
    ensures AllWhitespace(" ") && AllWhitespace("") && Lower(s) == s && s == " " + "1:30" + ""
  {
  }

  lemma PaddedPlain(s: string)
    requires s == "1:30"
    ensures NoUpper(s) && !IsWhitespace(s[0]) && !IsWhitespace(s[|s| - 1]) && Lower(s) == s
  {
  }

  lemma PaddedDigits(s: string)
    requires s == "1:30"
    ensures AllDigits("1") && s == "1" + ":" + "30"
  {
  }

  lemma PaddedParts(s: string)
    requires s == " 1:30"
    ensures ParseInts(SplitColon(s)).None?
  {
    assert s == " 1" + ":" + "30" && ':' !in " 1" && ':' !in "30";
    SplitAfter(" 1", "30");
    SplitNoColon("30");
    assert SplitColon(s) == [" 1", "30"];
    ParseIntRejects();
    ParseSnocFails(" 1", "30");
  }

  lemma ParseSnocFails(a: string, b: string)
    requires ParseInt(a).None?
    ensures ParseInts([a, b]).None?
  {
    ParseOne(a);
    ParseSnoc([a], b);
    assert [a] + [b] == [a, b];
  }

  /** "m:s": minutes and seconds. */
  lemma MinutesSeconds()
    ensures InModel("1:30") && ParseDuration("1:30") == Ok(90_000)
  {
    PaddedPlain("1:30");
    NormalizeOfPlain("1:30");
    PaddedDigits("1:30");
    ColonNoMatch("1", "30");
    TwoParts("1", "30");
    OneThirty();
    ClockSecondsTwo(1, 30);
  }

  lemma OneThirty()
    ensures ParseInts(["1", "30"]) == Some([1, 30])
  {
    assert DigitsValue("30") == 30 by { assert "30"[..1] == "3"; }
    ParseTwo("1", "30");
  }

  /** The clock form takes signed numbers: a leading minus is no component,
      and `toInt` reads "-1" as minus one minute. */
  lemma NegativeMinutes()
    ensures InModel("-1:30") && ParseDuration("-1:30") == Ok(-30_000)
  {
    SignedNoMatch("-1:30");
    SignedClock("-1:30");
  }

  lemma SignedClock(s: string)
    requires s == "-1:30"
    ensures TryAlternativeFormat(s) == Ok(-30_000)
  {
    assert s == "-1" + ":" + "30" && ':' !in "-1" && ':' !in "30";
    TwoParts("-1", "30");
    assert SplitColon(s) == ["-1", "30"];
    MinusOneThirty();
    SignedValue();
  }

  lemma SignedValue()
    ensures Int32(ClockSeconds([-1, 30]) * 1000) == -30_000
  {
    ClockSecondsTwo(-1, 30);
  }

  lemma SignedNoMatch(s: string)
    requires s == "-1:30"
    ensures Match(Normalize(s)).None?
  {
    SignedPlain(s);
    NormalizeOfPlain(s);
    NoDigitNoMatch(s);
  }

  lemma SignedPlain(s: string)
    requires s == "-1:30"
    ensures NoUpper(s) && !IsWhitespace(s[0]) && !IsWhitespace(s[|s| - 1]) && !IsDigit(s[0])
  {
  }

  lemma MinusOneThirty()
    ensures ParseInts(["-1", "30"]) == Some([-1, 30])
  {
    assert ParseInt("-1") == Some(-1) by { assert "-1"[1..] == "1"; }
    assert DigitsValue("30") == 30 by { assert "30"[..1] == "3"; }
    ParseTwo("-1", "30");
  }

  lemma TwoParts(a: string, b: string)
    requires ':' !in a && ':' !in b
    ensures SplitColon(a + ":" + b) == [a, b]
  {
    SplitAfter(a, b);
    SplitNoColon(b);
  }

  lemma ParseTwo(a: string, b: string)
    ensures ParseInts([a, b]) == if ParseInt(a).Some? && ParseInt(b).Some?
                                 then Some([ParseInt(a).value, ParseInt(b).value]) else None
  {
    ParseOne(a);
    ParseSnoc([a], b);
    assert [a] + [b] == [a, b];
    if ParseInt(a).Some? && ParseInt(b).Some? {
      var x, y := ParseInt(a).value, ParseInt(b).value;
      assert [x] + [y] == [x, y];
    }
  }
}
