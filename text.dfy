/** The Kotlin string functions getMillis relies on: `lowercase`, `trim`,
    `split(":")` and `toInt`, each over the characters the model covers. */
module Text {
  import opened Numbers

  /** Kotlin `Char.isWhitespace` on the JVM: the Java whitespace characters
      together with the Unicode space separators. */
  predicate IsWhitespace(c: char)
  {
    c == ' ' || '\t' <= c <= '\r' || '\U{1C}' <= c <= '\U{1F}'
    || c == '\U{A0}' || c == '\U{1680}' || '\U{2000}' <= c <= '\U{200A}'
    || c == '\U{2028}' || c == '\U{2029}' || c == '\U{202F}' || c == '\U{205F}' || c == '\U{3000}'
  }

  predicate AllWhitespace(s: string) { forall i :: 0 <= i < |s| ==> IsWhitespace(s[i]) }

  function LowerChar(c: char): char
  {
    if 'A' <= c <= 'Z' then (c as int + 32) as char else c
  }

  function UpperChar(c: char): char
  {
    if 'a' <= c <= 'z' then (c as int - 32) as char else c
  }

  /** `String.lowercase()` on the ASCII letters. */
  function Lower(s: string): (r: string)
    ensures |r| == |s|
    ensures forall i :: 0 <= i < |s| ==> r[i] == LowerChar(s[i])
  {
    if s == [] then [] else [LowerChar(s[0])] + Lower(s[1..])
  }

  /** `String.uppercase()` on the ASCII letters; used only to state that the
      parser ignores case. */
  function Upper(s: string): (r: string)
    ensures |r| == |s|
    ensures forall i :: 0 <= i < |s| ==> r[i] == UpperChar(s[i])
  {
    if s == [] then [] else [UpperChar(s[0])] + Upper(s[1..])
  }

  /** Dropping the leading whitespace. */
  function TrimStart(s: string): (r: string)
    ensures |r| <= |s|
  {
    if s != [] && IsWhitespace(s[0]) then TrimStart(s[1..]) else s
  }

  /** Dropping the trailing whitespace. */
  function TrimEnd(s: string): (r: string)
    ensures |r| <= |s|
  {
    if s != [] && IsWhitespace(s[|s| - 1]) then TrimEnd(s[..|s| - 1]) else s
  }

  /** `String.trim()`: the whitespace at both ends dropped. */
  function Trim(s: string): string
  {
    TrimEnd(TrimStart(s))
  }

  /** The text the regular expression is matched against. */
  function Normalize(s: string): string { Trim(Lower(s)) }

  /** `split(":")`: the parts between the colons, empty ones included. */
  function SplitColon(s: string): (parts: seq<string>)
    ensures |parts| > 0
  {
    if ':' !in s then [s]
    else
      var i := IndexOfColon(s);
      [s[..i]] + SplitColon(s[i + 1..])
  }

  function IndexOfColon(s: string): (i: nat)
    requires ':' in s
    ensures i < |s| && s[i] == ':' && ':' !in s[..i]
  {
    if s[0] == ':' then 0
    else
      assert ':' in s[1..] by { var j :| 0 <= j < |s| && s[j] == ':'; assert s[1..][j - 1] == ':'; }
      var j := IndexOfColon(s[1..]);
      assert s[..j + 1] == [s[0]] + s[1..][..j];
      1 + j
  }

  function CountColons(s: string): nat
  {
    if s == [] then 0 else (if s[0] == ':' then 1 else 0) + CountColons(s[1..])
  }

  /** The parts joined back with colons. */
  function JoinColon(parts: seq<string>): string
    requires |parts| > 0
  {
    if |parts| == 1 then parts[0] else parts[0] + ":" + JoinColon(parts[1..])
  }

  /** `Integer.parseInt` as `String.toInt` calls it: an optional sign, at least
      one digit, and a value that fits an `Int`. */
  function ParseInt(s: string): (r: Option<int>)
    ensures r.Some? ==> INT_MIN <= r.value <= INT_MAX
  {
    if s == [] then None
    else
      var negative := s[0] == '-';
      var digits := if s[0] == '-' || s[0] == '+' then s[1..] else s;
      if digits == [] || !AllDigits(digits) then None
      else
        var v: int := if negative then 0 - DigitsValue(digits) else DigitsValue(digits);
        if INT_MIN <= v <= INT_MAX then Some(v) else None
  }

  /** `Long.parseLong` on a run of digits: the value, unless it overflows. */
  function ParseLong(digits: string): (r: Option<int>)
    requires AllDigits(digits)
    ensures r.Some? <==> DigitsValue(digits) <= LONG_MAX
    ensures r.Some? ==> r.value == DigitsValue(digits)
  {
    if DigitsValue(digits) <= LONG_MAX then Some(DigitsValue(digits)) else None
  }

  datatype Option<T> = None | Some(value: T)
}
