/** The regular expression getMillis matches the normalized text against:
    five optional components, for y, d, h, m and s in that order, each
    `(?<g>\d+) ?<letter>(?:\w* ?)?`, the whole text to be consumed.

    The matcher below explores the alternatives in the order Java's
    backtracking matcher does (a greedy quantifier tries its longest run
    first, an optional part is tried present before absent) and returns the
    captures of the first way of matching the whole text. */
module DurationPattern {
  import opened Numbers
  import opened Text

  /** The unit letters of the five components, in pattern order. */
  const LETTERS: string := "ydhms"

  /** `\w` without `UNICODE_CHARACTER_CLASS`: ASCII letters, digits and `_`. */
  predicate IsWordChar(c: char)
  {
    'a' <= c <= 'z' || 'A' <= c <= 'Z' || IsDigit(c) || c == '_'
  }

  /** The captured digits of the components from the k-th on; `None` where a
      component did not take part in the match. */
  type Captures = seq<Option<string>>

  predicate WellFormed(caps: Captures, k: nat)
  {
    |caps| == 5 - k && forall i :: 0 <= i < |caps| && caps[i].Some? ==> caps[i].value != [] && AllDigits(caps[i].value)
  }

  /** The length of the run of digits `t` starts with. */
  function DigitRun(t: string): (n: nat)
    ensures n <= |t|
    ensures forall i :: 0 <= i < n ==> IsDigit(t[i])
    ensures n < |t| ==> !IsDigit(t[n])
  {
    if t != [] && IsDigit(t[0]) then 1 + DigitRun(t[1..]) else 0
  }

  /** The length of the run of word characters `t` starts with. */
  function WordRun(t: string): (n: nat)
    ensures n <= |t|
    ensures forall i :: 0 <= i < n ==> IsWordChar(t[i])
    ensures n < |t| ==> !IsWordChar(t[n])
  {
    if t != [] && IsWordChar(t[0]) then 1 + WordRun(t[1..]) else 0
  }

  /** The whole pattern against the whole text. */
  function Match(t: string): (r: Option<Captures>)
    ensures r.Some? ==> WellFormed(r.value, 0)
  {
    Components(t, 0)
  }

  /** Components k to 4 against all of `t`: this one present if the rest can
      then match, else this one absent. */
  function Components(t: string, k: nat): (r: Option<Captures>)
    requires k <= 5
    ensures r.Some? ==> WellFormed(r.value, k)
    decreases 5 - k, 7, 0
  {
    if k == 5 then (if t == [] then Some([]) else None)
    else
      match Present(t, k)
      case Some(caps) => Some(caps)
      case None =>
        match Components(t, k + 1)
        case Some(caps) => Some([None] + caps)
        case None => None
  }

  /** Component k present: `\d+` takes the longest digit run first. */
  function Present(t: string, k: nat): (r: Option<Captures>)
    requires k < 5
    ensures r.Some? ==> WellFormed(r.value, k)
    decreases 5 - k, 6, 0
  {
    TryDigits(t, k, DigitRun(t))
  }

  /** `\d+` taking the first `n` characters, then `n - 1`, down to one. */
  function TryDigits(t: string, k: nat, n: nat): (r: Option<Captures>)
    requires k < 5 && n <= DigitRun(t)
    ensures r.Some? ==> WellFormed(r.value, k)
    decreases 5 - k, 5, n
  {
    if n == 0 then None
    else
      match AfterDigits(t[n..], k)
      case Some(caps) => Some([Some(t[..n])] + caps)
      case None => TryDigits(t, k, n - 1)
  }

  /** ` ?` after the digits: with the space first, then without. */
  function AfterDigits(u: string, k: nat): (r: Option<Captures>)
    requires k < 5
    ensures r.Some? ==> WellFormed(r.value, k + 1)
    decreases 5 - k, 4, 0
  {
    if u != [] && u[0] == ' ' then
      match UnitLetter(u[1..], k)
      case Some(caps) => Some(caps)
      case None => UnitLetter(u, k)
    else UnitLetter(u, k)
  }

  /** The component's unit letter. */
  function UnitLetter(u: string, k: nat): (r: Option<Captures>)
    requires k < 5
    ensures r.Some? ==> WellFormed(r.value, k + 1)
    decreases 5 - k, 3, 0
  {
    if u != [] && u[0] == LETTERS[k] then Suffix(u[1..], k) else None
  }

  /** `(?:\w* ?)?`: present first, with the longest word run first; then absent. */
  function Suffix(v: string, k: nat): (r: Option<Captures>)
    requires k < 5
    ensures r.Some? ==> WellFormed(r.value, k + 1)
    decreases 5 - k, 2, 0
  {
    match TryWord(v, k, WordRun(v))
    case Some(caps) => Some(caps)
    case None => Components(v, k + 1)
  }

  /** `\w*` taking the first `n` characters, then ` ?` with the space first,
      then fewer word characters, down to none. */
  function TryWord(v: string, k: nat, n: nat): (r: Option<Captures>)
    requires k < 5 && n <= WordRun(v)
    ensures r.Some? ==> WellFormed(r.value, k + 1)
    decreases 5 - k, 1, n
  {
    var w := v[n..];
    var spaced := if w != [] && w[0] == ' ' then Components(w[1..], k + 1) else None;
    if spaced.Some? then spaced
    else
      match Components(w, k + 1)
      case Some(caps) => Some(caps)
      case None => if n == 0 then None else TryWord(v, k, n - 1)
  }
}
