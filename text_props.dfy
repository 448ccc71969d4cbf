/** Properties of the string functions: case folding, trimming, splitting at
    colons and reading an `Int`. */
module TextProperties {
  import opened Numbers
  import opened Text

  /** Lower-casing forgets the case the text was written in. */
  lemma LowerIgnoresCase(s: string)
    ensures Lower(Upper(s)) == Lower(s)
    ensures Lower(Lower(s)) == Lower(s)
  {
  }

  /** What `trimStart` drops is whitespace, and what it keeps is a suffix that
      does not start with whitespace. */
  lemma {:induction false} TrimStartShape(s: string)
    ensures TrimStart(s) == s[|s| - |TrimStart(s)|..]
    ensures AllWhitespace(s[..|s| - |TrimStart(s)|])
    ensures TrimStart(s) == [] || !IsWhitespace(TrimStart(s)[0])
  {
    if s != [] && IsWhitespace(s[0]) {
      TrimStartShape(s[1..]);
      var k := |s| - |TrimStart(s)|;
      assert s[..k] == [s[0]] + s[1..][..k - 1];
    }
  }

  /** What `trimEnd` drops is whitespace, and what it keeps is a prefix that
      does not end with whitespace. */
  lemma {:induction false} TrimEndShape(s: string)
    ensures TrimEnd(s) == s[..|TrimEnd(s)|]
    ensures AllWhitespace(s[|TrimEnd(s)|..])
    ensures TrimEnd(s) == [] || !IsWhitespace(TrimEnd(s)[|TrimEnd(s)| - 1])
  {
    if s != [] && IsWhitespace(s[|s| - 1]) {
      TrimEndShape(s[..|s| - 1]);
      var k := |TrimEnd(s)|;
      assert s[k..] == s[..|s| - 1][k..] + [s[|s| - 1]];
    }
  }

  /** `trim` keeps a middle slice of the text: what it cuts off at either end
      is whitespace, and what it keeps neither starts nor ends with whitespace. */
  lemma TrimShape(s: string)
    ensures exists k :: 0 <= k <= |s| - |Trim(s)| && Trim(s) == s[k..k + |Trim(s)|]
                        && AllWhitespace(s[..k]) && AllWhitespace(s[k + |Trim(s)|..])
    ensures Trim(s) == [] || (!IsWhitespace(Trim(s)[0]) && !IsWhitespace(Trim(s)[|Trim(s)| - 1]))
  {
    var t := TrimStart(s);
    var r := Trim(s);
    TrimStartShape(s);
    TrimEndShape(t);
    var k := |s| - |t|;
    assert s[k..k + |r|] == r;
    assert s[k + |r|..] == t[|r|..];
  }

  /** Leading whitespace is dropped whatever follows it. */
  lemma {:induction false} TrimStartPadded(p: string, t: string)
    requires AllWhitespace(p)
    ensures TrimStart(p + t) == TrimStart(t)
  {
    if p != [] {
      assert (p + t)[1..] == p[1..] + t;
      TrimStartPadded(p[1..], t);
    } else {
      assert p + t == t;
    }
  }

  /** Text behind the first non-whitespace character is kept as it is. */
  lemma {:induction false} TrimStartAppend(s: string, q: string)
    ensures TrimStart(s + q) == if TrimStart(s) == [] then TrimStart(q) else TrimStart(s) + q
  {
    if s == [] {
      assert s + q == q;
    } else if IsWhitespace(s[0]) {
      assert (s + q)[1..] == s[1..] + q;
      TrimStartAppend(s[1..], q);
    }
  }

  /** Trailing whitespace is dropped whatever precedes it. */
  lemma {:induction false} TrimEndPadded(t: string, q: string)
    requires AllWhitespace(q)
    ensures TrimEnd(t + q) == TrimEnd(t)
  {
    if q != [] {
      assert (t + q)[..|t + q| - 1] == t + q[..|q| - 1];
      TrimEndPadded(t, q[..|q| - 1]);
    } else {
      assert t + q == t;
    }
  }

  /** Whitespace around the text does not change what `trim` leaves. */
  lemma TrimPadded(p: string, s: string, q: string)
    requires AllWhitespace(p) && AllWhitespace(q)
    ensures Trim(p + s + q) == Trim(s)
  {
    assert p + s + q == p + (s + q);
    TrimStartPadded(p, s + q);
    TrimStartAppend(s, q);
    if TrimStart(s) == [] {
      TrimStartPadded(q, []);
      assert q + [] == q;
    } else {
      TrimEndPadded(TrimStart(s), q);
    }
  }

  /** Trailing whitespace does not change what `trim` leaves. */
  lemma TrimTrailing(s: string, q: string)
    requires AllWhitespace(q)
    ensures Trim(s + q) == Trim(s)
  {
    TrimStartAppend(s, q);
    if TrimStart(s) == [] {
      TrimStartPadded(q, []);
      assert q + [] == q;
    } else {
      TrimEndPadded(TrimStart(s), q);
    }
  }

  /** Trimming twice changes nothing more. */
  lemma TrimIdempotent(s: string)
    ensures Trim(Trim(s)) == Trim(s)
  {
    var r := Trim(s);
    TrimShape(s);
    if r != [] {
      assert TrimStart(r) == r;
      TrimEndShape(r);
    }
  }

  /** There is one more part than there are colons. */
  lemma {:induction false} SplitCount(s: string)
    ensures |SplitColon(s)| == CountColons(s) + 1
  {
    if ':' in s {
      var i := IndexOfColon(s);
      SplitCount(s[i + 1..]);
      ColonsAround(s, i);
    } else {
      NoColonCount(s);
    }
  }

  lemma {:induction false} NoColonCount(s: string)
    requires ':' !in s
    ensures CountColons(s) == 0
  {
    if s != [] {
      NoColonCount(s[1..]);
    }
  }

  /** Counting the colons of `s` around its first colon at `i`. */
  lemma {:induction false} ColonsAround(s: string, i: nat)
    requires i < |s| && s[i] == ':' && ':' !in s[..i]
    ensures CountColons(s) == 1 + CountColons(s[i + 1..])
  {
    if i > 0 {
      assert s[0] != ':' by { assert s[..i][0] == s[0]; }
      assert s[1..][..i - 1] == s[..i][1..];
      ColonsAround(s[1..], i - 1);
      assert s[1..][i..] == s[i + 1..];
    }
  }

  /** No part holds a colon. */
  lemma {:induction false} SplitPartsHaveNoColon(s: string)
    ensures forall k :: 0 <= k < |SplitColon(s)| ==> ':' !in SplitColon(s)[k]
  {
    if ':' in s {
      var i := IndexOfColon(s);
      SplitPartsHaveNoColon(s[i + 1..]);
    }
  }

  /** Joining the parts with colons gives back the text. */
  lemma {:induction false} SplitJoin(s: string)
    ensures JoinColon(SplitColon(s)) == s
  {
    if ':' in s {
      var i := IndexOfColon(s);
      SplitJoin(s[i + 1..]);
      var parts := SplitColon(s);
      assert parts[1..] == SplitColon(s[i + 1..]);
      assert s == s[..i] + ":" + s[i + 1..];
    }
  }

  /** A text without colons is one part. */
  lemma SplitNoColon(s: string)
    requires ':' !in s
    ensures SplitColon(s) == [s]
  {
  }

  /** Splitting at a first colon: the text before it is the first part. */
  lemma SplitAfter(a: string, b: string)
    requires ':' !in a
    ensures SplitColon(a + ":" + b) == [a] + SplitColon(b)
  {
    var s := a + ":" + b;
    assert s[|a|] == ':';
    var i := IndexOfColon(s);
    assert i == |a| by {
      assert forall j :: 0 <= j < |a| ==> s[j] == a[j];
      assert forall j :: 0 <= j < i ==> s[..i][j] == s[j];
    }
    assert s[..i] == a;
    assert s[i + 1..] == b;
  }

  /** `toInt` reads back the decimal text of every `Int`. */
  lemma ParseIntOfDecimal(n: nat)
    requires n <= INT_MAX
    ensures ParseInt(NatToString(n)) == Some(n)
    ensures ParseInt("+" + NatToString(n)) == Some(n)
  {
    NatToStringDigits(n);
    assert ("+" + NatToString(n))[1..] == NatToString(n);
  }

  lemma ParseIntOfNegative(n: nat)
    requires n <= -INT_MIN
    ensures ParseInt("-" + NatToString(n)) == Some(-(n as int))
  {
    NatToStringDigits(n);
    assert ("-" + NatToString(n))[1..] == NatToString(n);
  }

  /** `toInt` rejects the decimal text of every number beyond the `Int` range. */
  lemma ParseIntOutOfRange(n: nat)
    requires n > INT_MAX
    ensures ParseInt(NatToString(n)) == None
    ensures n > -INT_MIN ==> ParseInt("-" + NatToString(n)) == None
  {
    NatToStringDigits(n);
    assert ("-" + NatToString(n))[1..] == NatToString(n);
  }

  /** `toInt` rejects the empty text, a lone sign and surrounding blanks. */
  lemma ParseIntRejects()
    ensures ParseInt("") == None
    ensures ParseInt("-") == None
    ensures ParseInt(" 1") == None
    ensures ParseInt("1 ") == None
  {
    assert !IsDigit(" 1"[0]);
    assert !IsDigit("1 "[1]);
  }

  /** `toLong` reads back the decimal text of every `Long` and rejects that of
      every larger number. */
  lemma ParseLongOfDecimal(n: nat)
    ensures AllDigits(NatToString(n))
    ensures ParseLong(NatToString(n)) == if n <= LONG_MAX then Some(n) else None
  {
    NatToStringDigits(n);
  }

  /** Leading zeros do not change what `toLong` reads: "007" is 7. */
  lemma ParseLongLeadingZeros(zeros: string, d: string)
    requires forall i :: 0 <= i < |zeros| ==> zeros[i] == '0'
    requires AllDigits(d)
    ensures AllDigits(zeros + d) && ParseLong(zeros + d) == ParseLong(d)
  {
    LeadingZerosValue(zeros, d);
  }

  lemma {:induction false} ZerosValue(zeros: string)
    requires forall i :: 0 <= i < |zeros| ==> zeros[i] == '0'
    ensures AllDigits(zeros) && DigitsValue(zeros) == 0
  {
    if zeros != [] {
      ZerosValue(zeros[..|zeros| - 1]);
    }
  }

  lemma {:induction false} LeadingZerosValue(zeros: string, d: string)
    requires forall i :: 0 <= i < |zeros| ==> zeros[i] == '0'
    requires AllDigits(d)
    ensures AllDigits(zeros + d) && DigitsValue(zeros + d) == DigitsValue(d)
  {
    ZerosValue(zeros);
    if d == [] {
      assert zeros + d == zeros;
    } else {
      var front := d[..|d| - 1];
      LeadingZerosValue(zeros, front);
      var s := zeros + d;
      assert s[..|s| - 1] == zeros + front;
      assert s[|s| - 1] == d[|d| - 1];
    }
  }
}
