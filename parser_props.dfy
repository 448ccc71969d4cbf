/** What getMillis returns for the forms it accepts and rejects. */
module ParserProperties {
  import opened Units
  import opened Numbers
  import opened Text
  import opened DurationPattern
  import opened PatternProperties
  import opened TextProperties
  import opened Parser

  predicate NoUpper(s: string) { forall i :: 0 <= i < |s| ==> !('A' <= s[i] <= 'Z') }

  /** Lower case text without surrounding whitespace is matched as it is. */
  lemma NormalizeOfPlain(s: string)
    requires NoUpper(s)
    requires s == [] || (!IsWhitespace(s[0]) && !IsWhitespace(s[|s| - 1]))
    ensures Normalize(s) == s
  {
    assert Lower(s) == s;
  }

  /** Whitespace is left as it is by lower-casing. */
  lemma LowerWhitespace(s: string)
    requires AllWhitespace(s)
    ensures Lower(s) == s
  {
  }

  lemma LowerAppend(a: string, b: string)
    ensures Lower(a + b) == Lower(a) + Lower(b)
  {
    assert forall i :: 0 <= i < |a + b| ==> Lower(a + b)[i] == (Lower(a) + Lower(b))[i];
  }

  /** The text the pattern sees ignores case and surrounding whitespace. */
  lemma NormalizeIgnoresCaseAndPadding(p: string, s: string, q: string)
    requires AllWhitespace(p) && AllWhitespace(q)
    ensures Normalize(p + s + q) == Normalize(s)
    ensures Normalize(Upper(s)) == Normalize(s)
  {
    LowerAppend(p + s, q);
    LowerAppend(p, s);
    LowerWhitespace(p);
    LowerWhitespace(q);
    TrimPadded(p, Lower(s), q);
    LowerIgnoresCase(s);
  }

  /** When the primary form matches, surrounding whitespace and upper case
      change nothing but the text an error names. (The clock form has no
      such property: it reads the text untrimmed.) */
  lemma PrimaryIgnoresCaseAndPadding(p: string, s: string, q: string)
    requires AllWhitespace(p) && AllWhitespace(q)
    requires InModel(s) && Match(Normalize(s)).Some?
    ensures InModel(p + s + q) && InModel(Upper(s))
    ensures ParseDuration(p + s + q) == if ParseDuration(s).Ok? then ParseDuration(s) else FormatError(p + s + q)
    ensures ParseDuration(Upper(s)) == if ParseDuration(s).Ok? then ParseDuration(s) else FormatError(Upper(s))
  {
    NormalizeIgnoresCaseAndPadding(p, s, q);
  }

  /** The empty text and blank texts are zero milliseconds. */
  lemma BlankIsZero(s: string)
    requires AllWhitespace(s)
    ensures InModel(s) && ParseDuration(s) == Ok(0)
  {
    LowerWhitespace(s);
    assert s + [] == s;
    TrimStartPadded(s, []);
    assert Normalize(s) == [];
    EmptyMatches(0);
  }

  /** The value of a capture: zero when absent. */
  function Val(c: Option<string>): nat
    requires c.Some? ==> AllDigits(c.value)
  {
    if c.None? then 0 else DigitsValue(c.value)
  }

  /** The captures of components `lo` to 4, each value times its unit's factor. */
  function Weighted(caps: Captures, lo: nat): nat
    requires lo <= 5 && WellFormed(caps, lo)
    decreases 5 - lo
  {
    if lo == 5 then 0
    else
      assert WellFormed(caps[1..], lo + 1) by {
        assert forall i :: 0 <= i < |caps| - 1 ==> caps[1..][i] == caps[i + 1];
      }
      Val(caps[0]) * Factor(AllUnits[lo]) + Weighted(caps[1..], lo + 1)
  }

  /** The milliseconds the pieces stand for. */
  function PiecesSum(ps: seq<Piece>, lo: nat): nat
    requires Ordered(ps, lo)
  {
    if ps == [] then 0
    else DigitsValue(ps[0].digits) * Factor(AllUnits[ps[0].k]) + PiecesSum(ps[1..], ps[0].k + 1)
  }

  predicate WordsLower(ps: seq<Piece>)
  {
    ps == [] || (NoUpper(ps[0].word) && WordsLower(ps[1..]))
  }

  /** Every component's digits fit a `Long`, and a years count stays where
      `Double` is exact. */
  predicate Fits(ps: seq<Piece>, lo: nat)
    requires Ordered(ps, lo)
  {
    ps == [] ||
    (DigitsValue(ps[0].digits) <= LONG_MAX
     && (ps[0].k == 0 ==> DigitsValue(ps[0].digits) * FACTOR_YEARS <= DOUBLE_EXACT)
     && Fits(ps[1..], ps[0].k + 1))
  }

  lemma {:induction false} WeightedOfPieces(ps: seq<Piece>, lo: nat)
    requires lo <= 5 && Ordered(ps, lo)
    ensures Weighted(CapsOf(ps, lo), lo) == PiecesSum(ps, lo)
    decreases 5 - lo
  {
    if lo < 5 {
      var caps := CapsOf(ps, lo);
      if ps != [] && ps[0].k == lo {
        WeightedOfPieces(ps[1..], lo + 1);
        assert caps[1..] == CapsOf(ps[1..], lo + 1);
      } else {
        WeightedOfPieces(ps, lo + 1);
        assert caps[1..] == CapsOf(ps, lo + 1);
      }
    }
  }

  /** The primary form's sum is the weighted sum of the captures. */
  lemma SumOfCaptures(caps: Captures, vs: seq<nat>)
    requires WellFormed(caps, 0) && CaptureValues(caps) == Some(vs)
    ensures ComponentsSum(vs) == Weighted(caps, 0)
  {
    var c1, c2, c3, c4 := caps[1..], caps[2..], caps[3..], caps[4..];
    assert c1[1..] == c2 && c2[1..] == c3 && c3[1..] == c4 && c4[1..] == [];
    assert Weighted(c4, 4) == Val(caps[4]) * FACTOR_SECONDS;
    assert Weighted(c3, 3) == Val(caps[3]) * FACTOR_MINUTES + Weighted(c4, 4);
    assert Weighted(c2, 2) == Val(caps[2]) * FACTOR_HOURS + Weighted(c3, 3);
    assert Weighted(c1, 1) == Val(caps[1]) * FACTOR_DAYS + Weighted(c2, 2);
    assert Weighted(caps, 0) == Val(caps[0]) * FACTOR_YEARS + Weighted(c1, 1);
  }

  /** What `Fits` says about the pieces holds of the captures. */
  lemma {:induction false} CapsFit(ps: seq<Piece>, lo: nat)
    requires lo <= 5 && Ordered(ps, lo) && Fits(ps, lo)
    ensures forall i :: 0 <= i < 5 - lo && CapsOf(ps, lo)[i].Some? ==>
              DigitsValue(CapsOf(ps, lo)[i].value) <= LONG_MAX
    ensures lo == 0 && CapsOf(ps, lo)[0].Some? ==> DigitsValue(CapsOf(ps, lo)[0].value) * FACTOR_YEARS <= DOUBLE_EXACT
    decreases 5 - lo
  {
    if lo < 5 {
      var caps := CapsOf(ps, lo);
      if ps != [] && ps[0].k == lo {
        CapsFit(ps[1..], lo + 1);
        assert caps[1..] == CapsOf(ps[1..], lo + 1);
      } else {
        CapsFit(ps, lo + 1);
        assert caps[1..] == CapsOf(ps, lo + 1);
      }
    }
  }

  /** The rendered pieces are in lower case. */
  lemma {:induction false} RenderLower(ps: seq<Piece>, lo: nat)
    requires Ordered(ps, lo) && WordsLower(ps)
    ensures NoUpper(Render(ps, lo))
    decreases |ps|
  {
    if ps != [] {
      var p := ps[0];
      WrittenShape(p);
      if |ps| > 1 {
        RenderLower(ps[1..], p.k + 1);
        var rest := Render(ps[1..], p.k + 1);
        LowerConcat(Written(p), " ", rest);
      }
    }
  }

  lemma LowerConcat(a: string, b: string, c: string)
    requires NoUpper(a) && NoUpper(b) && NoUpper(c)
    ensures NoUpper(a + b + c)
  {
    assert forall i :: 0 <= i < |a + b + c| ==> (a + b + c)[i] == if i < |a| then a[i] else if i < |a + b| then b[i - |a|] else c[i - |a + b|];
  }

  /** The rendered pieces start with a digit and end with a word character. */
  lemma {:induction false} RenderEnds(ps: seq<Piece>, lo: nat)
    requires Ordered(ps, lo) && ps != []
    ensures IsDigit(Render(ps, lo)[0]) && IsWordChar(Render(ps, lo)[|Render(ps, lo)| - 1])
    decreases |ps|
  {
    var p := ps[0];
    WrittenEnds(p);
    if |ps| > 1 {
      RenderEnds(ps[1..], p.k + 1);
      var w := Written(p);
      var rest := Render(ps[1..], p.k + 1);
      var t := w + " " + rest;
      assert t[0] == w[0];
      assert t[|t| - 1] == rest[|rest| - 1];
    }
  }

  lemma WrittenShape(p: Piece)
    requires PieceOk(p) && NoUpper(p.word)
    ensures NoUpper(Written(p))
  {
    assert LETTERS == ['y', 'd', 'h', 'm', 's'];
  }

  lemma WrittenEnds(p: Piece)
    requires PieceOk(p)
    ensures IsDigit(Written(p)[0]) && IsWordChar(Written(p)[|Written(p)| - 1])
  {
    var w := Written(p);
    assert LETTERS == ['y', 'd', 'h', 'm', 's'];
    assert w[0] == p.digits[0];
    assert w[|w| - 1] == if p.word == [] then LETTERS[p.k] else p.word[|p.word| - 1];
  }

  /** Components written in order match as those components. */
  lemma ReadBackMatch(ps: seq<Piece>)
    requires Ordered(ps, 0) && WordsLower(ps)
    ensures Match(Normalize(Render(ps, 0))) == Some(CapsOf(ps, 0))
  {
    var t := Render(ps, 0);
    RenderLower(ps, 0);
    if ps != [] {
      RenderEnds(ps, 0);
    }
    NormalizeOfPlain(t);
    RenderMatches(ps, 0);
  }

  /** Matched components read back as the sum of each value times its unit's
      factor, in `Long` arithmetic. */
  lemma ReadBackValue(t: string, ps: seq<Piece>)
    requires Ordered(ps, 0) && Fits(ps, 0)
    requires Match(Normalize(t)) == Some(CapsOf(ps, 0))
    ensures InModel(t) && ParseDuration(t) == Ok(Int64(PiecesSum(ps, 0)))
  {
    var caps := CapsOf(ps, 0);
    CapsFit(ps, 0);
    WeightedOfPieces(ps, 0);
    var vs := CaptureValues(caps).value;
    SumOfCaptures(caps, vs);
  }

  /** Components written in order, in lower case, read back as the sum of
      each value times its unit's factor. */
  lemma ReadBack(ps: seq<Piece>)
    requires Ordered(ps, 0) && WordsLower(ps) && Fits(ps, 0)
    ensures InModel(Render(ps, 0)) && ParseDuration(Render(ps, 0)) == Ok(Int64(PiecesSum(ps, 0)))
  {
    ReadBackMatch(ps);
    ReadBackValue(Render(ps, 0), ps);
  }

  /** An absent component counts zero, a present one its value if that fits a
      `Long`; otherwise `toLong` throws. */
  lemma CaptureValueOfDecimal(n: nat)
    ensures AllDigits(NatToString(n))
    ensures CaptureValue(Some(NatToString(n))) == if n <= LONG_MAX then Some(n) else None
    ensures CaptureValue(None) == Some(0)
  {
    ParseLongOfDecimal(n);
  }

  /** The captures that write the given numbers in decimal, absent where there is none. */
  function DecimalCaps(ns: seq<Option<nat>>): (caps: Captures)
    requires |ns| == 5
    ensures |caps| == 5
    ensures forall i :: 0 <= i < 5 ==> caps[i] == if ns[i].Some? then Some(NatToString(ns[i].value)) else None
  {
    seq(5, i requires 0 <= i < 5 => if ns[i].Some? then Some(NatToString(ns[i].value)) else None)
  }

  /** The five values come back exactly when every present one fits a `Long`,
      and then each is the number written, or zero where the component is absent. */
  lemma CaptureValuesOfDecimals(ns: seq<Option<nat>>)
    requires |ns| == 5
    ensures WellFormed(DecimalCaps(ns), 0)
    ensures CaptureValues(DecimalCaps(ns)).Some? <==>
            forall i :: 0 <= i < 5 && ns[i].Some? ==> ns[i].value <= LONG_MAX
    ensures CaptureValues(DecimalCaps(ns)).Some? ==>
            forall i :: 0 <= i < 5 ==> CaptureValues(DecimalCaps(ns)).value[i] == if ns[i].Some? then ns[i].value else 0
  {
    var caps := DecimalCaps(ns);
    forall i | 0 <= i < 5 && ns[i].Some?
      ensures AllDigits(NatToString(ns[i].value)) && NatToString(ns[i].value) != []
      ensures CaptureValue(caps[i]) == if ns[i].value <= LONG_MAX then Some(ns[i].value) else None
    {
      CaptureValueOfDecimal(ns[i].value);
    }
  }
}
