/** getMillis: text such as "2h 3m 4s", "1 Day" or "01:30:00" to milliseconds. */
module Parser {
  import opened Units
  import opened Numbers
  import opened Text
  import opened DurationPattern

  /** The outcome of getMillis: the milliseconds, or the exception it throws
      (a `NumberFormatException` from `toLong`/`toInt`, or the "Invalid format"
      `RuntimeException`), each carrying the text that was given. */
  datatype Parsed = Ok(millis: int) | FormatError(input: string)

  /** 2^53: up to here every integer is a `Double`. */
  const DOUBLE_EXACT: nat := 0x20_0000_0000_0000

  /** `group(g)?.toLong() ?: 0L`: zero for a component that is absent, the value
      of its digits otherwise, and `None` where `toLong` throws. */
  function CaptureValue(c: Option<string>): (v: Option<nat>)
    requires c.Some? ==> AllDigits(c.value)
    ensures c.None? ==> v == Some(0)
    ensures c.Some? ==> (v.Some? <==> DigitsValue(c.value) <= LONG_MAX)
    ensures c.Some? && v.Some? ==> v.value == DigitsValue(c.value)
  {
    match c
    case None => Some(0)
    case Some(digits) =>
      match ParseLong(digits)
      case None => None
      case Some(x) => Some(x)
  }

  /** The values of the five components, or `None` if one does not fit a `Long`. */
  function CaptureValues(caps: Captures): (vs: Option<seq<nat>>)
    requires WellFormed(caps, 0)
    ensures vs.Some? <==> forall i :: 0 <= i < 5 ==> CaptureValue(caps[i]).Some?
    ensures vs.Some? ==> |vs.value| == 5 && forall i :: 0 <= i < 5 ==> vs.value[i] == CaptureValue(caps[i]).value
  {
    var y := CaptureValue(caps[0]);
    var d := CaptureValue(caps[1]);
    var h := CaptureValue(caps[2]);
    var m := CaptureValue(caps[3]);
    var s := CaptureValue(caps[4]);
    if y.Some? && d.Some? && h.Some? && m.Some? && s.Some? then
      Some([y.value, d.value, h.value, m.value, s.value])
    else None
  }

  /** The years term goes through `Double`: the model covers the texts whose
      years, if they fit a `Long`, stay within the exactly representable range. */
  predicate YearsExact(caps: Captures)
    requires WellFormed(caps, 0)
  {
    match CaptureValue(caps[0])
    case None => true
    case Some(years) => years * FACTOR_YEARS <= DOUBLE_EXACT
  }

  /** The texts the model covers: all but those whose components all fit a
      `Long` and whose years count reaches beyond 2^53 ms. A text where some
      `toLong` throws is covered whatever its years count, since every
      `toLong` runs before the `Double` arithmetic. */
  predicate InModel(s: string)
  {
    var m := Match(Normalize(s));
    m.Some? && CaptureValues(m.value).Some? ==> YearsExact(m.value)
  }

  /** The value of the primary form: each component times its unit's factor,
      summed, in `Long` arithmetic. */
  function ComponentsMillis(vs: seq<nat>): int
    requires |vs| == 5
  {
    Int64(ComponentsSum(vs))
  }

  /** The exact value of the primary form. */
  function ComponentsSum(vs: seq<nat>): nat
    requires |vs| == 5
  {
    vs[0] * FACTOR_YEARS + vs[1] * FACTOR_DAYS + vs[2] * FACTOR_HOURS
    + vs[3] * FACTOR_MINUTES + vs[4] * FACTOR_SECONDS
  }

  /** The clock form "h:m:s", "m:s" or "s" read as seconds. */
  function ClockSeconds(vs: seq<int>): int
  {
    if vs == [] then 0 else ClockSeconds(vs[..|vs| - 1]) * 60 + vs[|vs| - 1]
  }

  /** `toInt` on every part: their values, or `None` if one of them throws. */
  function ParseInts(parts: seq<string>): (r: Option<seq<int>>)
    ensures r.Some? ==> |r.value| == |parts|
  {
    if parts == [] then Some([])
    else
      match (ParseInts(parts[..|parts| - 1]), ParseInt(parts[|parts| - 1]))
      case (Some(vs), Some(v)) => Some(vs + [v])
      case _ => None
  }

  /** `ParseInts` fails exactly when one part is not an `Int`, and otherwise
      holds the value of each part. */
  lemma {:induction false} ParseIntsAt(parts: seq<string>)
    ensures ParseInts(parts).Some? <==> forall i :: 0 <= i < |parts| ==> ParseInt(parts[i]).Some?
    ensures ParseInts(parts).Some? ==> forall i :: 0 <= i < |parts| ==> ParseInt(parts[i]) == Some(ParseInts(parts).value[i])
  {
    if parts != [] {
      var init := parts[..|parts| - 1];
      ParseIntsAt(init);
      assert forall i :: 0 <= i < |init| ==> init[i] == parts[i];
    }
  }

  /** What getMillis returns, as a function of its argument: the primary form
      when the pattern matches the trimmed, lower-cased text, the clock form of
      the original text otherwise. */
  function ParseDuration(s: string): Parsed
    requires InModel(s)
  {
    match Match(Normalize(s))
    case None => TryAlternativeFormat(s)
    case Some(caps) =>
      match CaptureValues(caps)
      case None => FormatError(s)
      case Some(vs) => Ok(ComponentsMillis(vs))
  }

  /** tryAlternativeFormat: up to three colon-separated `Int`s, hours first,
      in `Int` arithmetic step by step and widened to `Long` at the end. */
  function TryAlternativeFormat(s: string): (r: Parsed)
    ensures r.Ok? <==> 1 <= |SplitColon(s)| <= 3 && ParseInts(SplitColon(s)).Some?
    ensures r.Ok? ==> r.millis == Int32(ClockSeconds(ParseInts(SplitColon(s)).value) * 1000)
    ensures r.FormatError? ==> r.input == s
  {
    var split := SplitColon(s);
    if |split| == 3 then
      match ParseInts(split)
      case Some(vs) => Ok(ThreePartMillis(vs))
      case None => FormatError(s)
    else if |split| == 2 then
      match ParseInts(split)
      case Some(vs) => Ok(TwoPartMillis(vs))
      case None => FormatError(s)
    else if |split| == 1 then
      match ParseInts(split)
      case Some(vs) => Ok(OnePartMillis(vs))
      case None => FormatError(s)
    else
      FormatError(s)
  }

  /** "h:m:s": hours, minutes and seconds each scaled to milliseconds, then
      summed, all in `Int` arithmetic. */
  function ThreePartMillis(vs: seq<int>): (r: int)
    requires |vs| == 3
    ensures r == Int32(ClockSeconds(vs) * 1000)
  {
    var hours := Int32(Int32(Int32(vs[0] * 1000) * 60) * 60);
    var minutes := Int32(Int32(vs[1] * 1000) * 60);
    var seconds := Int32(vs[2] * 1000);
    ClockThree(vs[0], vs[1], vs[2]);
    assert vs == [vs[0], vs[1], vs[2]];
    Int32(Int32(seconds + minutes) + hours)
  }

  /** "m:s": minutes and seconds each scaled to milliseconds, then summed. */
  function TwoPartMillis(vs: seq<int>): (r: int)
    requires |vs| == 2
    ensures r == Int32(ClockSeconds(vs) * 1000)
  {
    var minutes := Int32(Int32(vs[0] * 1000) * 60);
    var seconds := Int32(vs[1] * 1000);
    ClockTwo(vs[0], vs[1]);
    assert vs == [vs[0], vs[1]];
    Int32(seconds + minutes)
  }

  /** "s": the seconds scaled to milliseconds. */
  function OnePartMillis(vs: seq<int>): (r: int)
    requires |vs| == 1
    ensures r == Int32(ClockSeconds(vs) * 1000)
  {
    assert ClockSeconds(vs) == vs[0] by { assert vs[..0] == []; }
    Int32(vs[0] * 1000)
  }

  /** The three-part clock form step by step equals the exact value reduced once. */
  lemma ClockThree(h: int, m: int, sec: int)
    ensures Int32(Int32(Int32(sec * 1000) + Int32(Int32(m * 1000) * 60)) + Int32(Int32(Int32(h * 1000) * 60) * 60))
         == Int32(ClockSeconds([h, m, sec]) * 1000)
  {
    var x := sec * 1000;
    var y := m * 60_000;
    var z := h * 3_600_000;
    ClockTwo(m, sec);
    assert Int32(Int32(x) + Int32(Int32(m * 1000) * 60)) == Int32(x + y) by {
      assert ClockSeconds([m, sec]) * 1000 == x + y by { ClockSecondsTwo(m, sec); }
    }
    assert Int32(Int32(Int32(h * 1000) * 60) * 60) == Int32(z) by {
      Int32Mul(h * 1000, 60);
      Int32Mul(h * 60_000, 60);
    }
    Int32AddBoth(x + y, z);
    assert ClockSeconds([h, m, sec]) * 1000 == x + y + z by { ClockSecondsThree(h, m, sec); }
  }

  /** The two-part clock form step by step equals the exact value reduced once. */
  lemma ClockTwo(m: int, sec: int)
    ensures Int32(Int32(sec * 1000) + Int32(Int32(m * 1000) * 60)) == Int32(ClockSeconds([m, sec]) * 1000)
  {
    Int32Mul(m * 1000, 60);
    Int32AddBoth(sec * 1000, m * 60_000);
    ClockSecondsTwo(m, sec);
  }

  lemma ClockSecondsTwo(m: int, sec: int)
    ensures ClockSeconds([m, sec]) * 1000 == sec * 1000 + m * 60_000
  {
    assert [m, sec][..1] == [m];
    assert [m][..0] == [];
    assert ClockSeconds([m]) == m;
    assert ClockSeconds([m, sec]) == m * 60 + sec;
  }

  lemma ClockSecondsThree(h: int, m: int, sec: int)
    ensures ClockSeconds([h, m, sec]) * 1000 == sec * 1000 + m * 60_000 + h * 3_600_000
  {
    assert [h, m, sec][..2] == [h, m];
    assert [h, m][..1] == [h];
    assert [h][..0] == [];
    assert ClockSeconds([h]) == h;
    assert ClockSeconds([h, m]) == h * 60 + m;
    assert ClockSeconds([h, m, sec]) == (h * 60 + m) * 60 + sec;
  }

  /** `(years * 365.25 * 24 * 60 * 60 * 1000).toLong()`: below 2^53 each
      `Double` product is exact, so the term is the years times the year factor. */
  function YearsMillis(years: nat): nat
    requires years * FACTOR_YEARS <= DOUBLE_EXACT
  {
    years * FACTOR_YEARS
  }

  /** getMillis: match the pattern against the lower-cased, trimmed text; if it
      does not match, read the clock form of the original text; otherwise read
      each component with `toLong` and add them up in `Long` arithmetic. */
  method GetMillis(str: string) returns (r: Parsed)
    requires InModel(str)
    ensures r == ParseDuration(str)
  {
    var matcher := Match(Normalize(str));
    if matcher.None? {
      r := TryAlternativeFormat(str);
      return;
    }
    var caps := matcher.value;
    var y := CaptureValue(caps[0]);
    var d := CaptureValue(caps[1]);
    var h := CaptureValue(caps[2]);
    var m := CaptureValue(caps[3]);
    var s := CaptureValue(caps[4]);
    if y.None? || d.None? || h.None? || m.None? || s.None? {
      r := FormatError(str);
      return;
    }
    var years, days, hours, minutes, seconds := y.value, d.value, h.value, m.value, s.value;
    ghost var vs := [years, days, hours, minutes, seconds];
    assert CaptureValues(caps) == Some(vs);
    assert YearsExact(caps);
    var millis := AddUp(years, days, hours, minutes, seconds);
    r := Ok(millis);
  }

  /** The `millis +=` lines of getMillis, in `Long` arithmetic. */
  method AddUp(years: nat, days: nat, hours: nat, minutes: nat, seconds: nat) returns (millis: int)
    requires years * FACTOR_YEARS <= DOUBLE_EXACT
    ensures millis == ComponentsMillis([years, days, hours, minutes, seconds])
  {
    // Each term as getMillis computes it: every product reduced to a `Long`.
    var secondsTerm := Int64(seconds * 1000);
    var minutesTerm := Int64(Int64(minutes * 60) * 1000);
    var hoursTerm := Int64(Int64(Int64(hours * 60) * 60) * 1000);
    var daysTerm := Int64(Int64(Int64(Int64(days * 24) * 60) * 60) * 1000);
    MinutesTerm(minutes);
    HoursTerm(hours);
    DaysTerm(days);
    // Alongside, the exact sum so far.
    ghost var exact := 0;
    millis := 0;
    Int64Step(millis, exact, secondsTerm, seconds * 1000);
    millis, exact := Int64(millis + secondsTerm), exact + seconds * 1000;
    assert millis == Int64(exact);
    Int64Step(millis, exact, minutesTerm, minutes * 60_000);
    millis, exact := Int64(millis + minutesTerm), exact + minutes * 60_000;
    assert millis == Int64(exact);
    Int64Step(millis, exact, hoursTerm, hours * 3_600_000);
    millis, exact := Int64(millis + hoursTerm), exact + hours * 3_600_000;
    assert millis == Int64(exact);
    Int64Step(millis, exact, daysTerm, days * 86_400_000);
    millis, exact := Int64(millis + daysTerm), exact + days * 86_400_000;
    assert millis == Int64(exact);
    Int64Add(exact, YearsMillis(years));
    millis, exact := Int64(millis + YearsMillis(years)), exact + YearsMillis(years);
    assert millis == Int64(exact);
    ComponentsSumOf(years, days, hours, minutes, seconds, exact);
  }

  lemma ComponentsSumOf(years: nat, days: nat, hours: nat, minutes: nat, seconds: nat, exact: int)
    requires years * FACTOR_YEARS <= DOUBLE_EXACT
    requires exact == seconds * 1000 + minutes * 60_000 + hours * 3_600_000 + days * 86_400_000 + YearsMillis(years)
    ensures ComponentsMillis([years, days, hours, minutes, seconds]) == Int64(exact)
  {
    var vs := [years, days, hours, minutes, seconds];
    assert vs[0] == years && vs[1] == days && vs[2] == hours && vs[3] == minutes && vs[4] == seconds;
  }


  lemma MinutesTerm(minutes: nat)
    ensures Int64(Int64(minutes * 60) * 1000) == Int64(minutes * 60_000)
  {
    Int64Mul(minutes * 60, 1000);
  }

  lemma HoursTerm(hours: nat)
    ensures Int64(Int64(Int64(hours * 60) * 60) * 1000) == Int64(hours * 3_600_000)
  {
    Int64Mul(hours * 60, 60);
    Int64Mul(Int64(hours * 60) * 60, 1000);
    Int64Mul(hours * 3600, 1000);
  }

  lemma DaysTerm(days: nat)
    ensures Int64(Int64(Int64(Int64(days * 24) * 60) * 60) * 1000) == Int64(days * 86_400_000)
  {
    Int64Mul(days * 24, 60);
    Int64Mul(Int64(days * 24) * 60, 60);
    Int64Mul(days * 1440, 60);
    Int64Mul(Int64(Int64(days * 24) * 60) * 60, 1000);
    Int64Mul(days * 86400, 1000);
  }
}
