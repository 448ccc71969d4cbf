/** How the duration pattern takes a text apart: which texts match, and what
    the five captures then hold. */
module PatternProperties {
  import opened Numbers
  import opened Text
  import opened DurationPattern

  /** `n` components that took no part in the match. */
  function Nones(n: nat): (r: Captures)
    ensures |r| == n && forall i :: 0 <= i < n ==> r[i].None?
  {
    if n == 0 then [] else [None] + Nones(n - 1)
  }

  /** `n` absent components in front of the outcome of the later ones. */
  function Prepend(n: nat, m: Option<Captures>): Option<Captures>
  {
    match m
    case None => None
    case Some(caps) => Some(Nones(n) + caps)
  }

  predicate AllWord(w: string) { forall i :: 0 <= i < |w| ==> IsWordChar(w[i]) }

  /** The empty text matches, with every component absent. */
  lemma {:induction false} EmptyMatches(k: nat)
    requires k <= 5
    ensures Components([], k) == Some(Nones(5 - k))
    decreases 5 - k
  {
    if k < 5 {
      EmptyMatches(k + 1);
      assert Present([], k).None?;
      AbsentStep([], k);
    }
  }

  /** A component that cannot be present is absent. */
  lemma AbsentStep(t: string, k: nat)
    requires k < 5 && Present(t, k).None?
    ensures Components(t, k) == Prepend(1, Components(t, k + 1))
  {
    assert Nones(1) == [None];
  }

  lemma PrependOnce(n: nat, m: Option<Captures>)
    ensures Prepend(1, Prepend(n, m)) == Prepend(n + 1, m)
  {
    match m
    case None =>
    case Some(caps) =>
      assert Nones(1) + (Nones(n) + caps) == Nones(n + 1) + caps;
  }

  /** Components that cannot be present are skipped as absent. */
  lemma {:induction false} SkipAbsent(t: string, lo: nat, k: nat)
    requires lo <= k <= 5
    requires forall j :: lo <= j < k ==> Present(t, j).None?
    ensures Components(t, lo) == Prepend(k - lo, Components(t, k))
    decreases k - lo
  {
    if lo < k {
      SkipAbsent(t, lo + 1, k);
      AbsentStep(t, lo);
      PrependOnce(k - lo - 1, Components(t, k));
    } else {
      match Components(t, k)
      case None =>
      case Some(caps) =>
        assert Nones(0) + caps == caps;
    }
  }

  lemma {:induction false} DigitRunOf(d: string, rest: string)
    requires AllDigits(d) && (rest == [] || !IsDigit(rest[0]))
    ensures DigitRun(d + rest) == |d|
  {
    if d == [] {
      assert d + rest == rest;
    } else {
      assert (d + rest)[1..] == d[1..] + rest;
      DigitRunOf(d[1..], rest);
    }
  }

  lemma {:induction false} WordRunOf(w: string, rest: string)
    requires AllWord(w) && (rest == [] || !IsWordChar(rest[0]))
    ensures WordRun(w + rest) == |w|
  {
    if w == [] {
      assert w + rest == rest;
    } else {
      assert (w + rest)[1..] == w[1..] + rest;
      WordRunOf(w[1..], rest);
    }
  }

  /** No unit letter is a digit, a space or some other unit's letter. */
  lemma LettersDistinct(j: nat, k: nat)
    requires j < 5 && k < 5
    ensures !IsDigit(LETTERS[k]) && LETTERS[k] != ' ' && IsWordChar(LETTERS[k])
    ensures LETTERS[j] == LETTERS[k] ==> j == k
  {
    assert LETTERS == ['y', 'd', 'h', 'm', 's'];
  }

  /** `\d+` fails when no way of cutting the digits lets the rest match. */
  lemma {:induction false} DigitsAllFail(t: string, k: nat, n: nat)
    requires k < 5 && n <= DigitRun(t)
    requires forall i :: 1 <= i <= n ==> AfterDigits(t[i..], k).None?
    ensures TryDigits(t, k, n).None?
    decreases n
  {
    if n > 0 {
      DigitsAllFail(t, k, n - 1);
    }
  }

  /** Component k cannot be present where the digits, with or without one
      space, are followed by a character other than its letter. */
  lemma PresentFails(d: string, sep: string, c: char, rest: string, k: nat)
    requires k < 5 && AllDigits(d) && d != []
    requires sep == "" || sep == " "
    requires !IsDigit(c) && c != ' ' && c != LETTERS[k]
    ensures Present(d + sep + [c] + rest, k).None?
  {
    var t := d + sep + [c] + rest;
    assert t == d + (sep + [c] + rest);
    DigitRunOf(d, sep + [c] + rest);
    LettersDistinct(k, k);
    forall i | 1 <= i <= |d|
      ensures AfterDigits(t[i..], k).None?
    {
      var u := t[i..];
      if i < |d| {
        assert u[0] == d[i];
      } else {
        assert u == sep + [c] + rest;
        if sep == " " {
          assert u[1..] == [c] + rest;
        }
      }
    }
    DigitsAllFail(t, k, |d|);
  }

  /** Component k present, its digits followed by an optional space and its
      letter: the captures are its digits and what the suffix leaves. */
  lemma PresentWhenSuffix(d: string, sep: string, x: string, k: nat)
    requires k < 5 && AllDigits(d) && d != []
    requires sep == "" || sep == " "
    requires Suffix(x, k).Some?
    ensures Present(d + sep + [LETTERS[k]] + x, k) == Some([Some(d)] + Suffix(x, k).value)
  {
    var t := d + sep + [LETTERS[k]] + x;
    LettersDistinct(k, k);
    assert t == d + (sep + [LETTERS[k]] + x);
    DigitRunOf(d, sep + [LETTERS[k]] + x);
    assert t[..|d|] == d;
    var u := t[|d|..];
    assert u == sep + [LETTERS[k]] + x;
    assert u[|sep|..] == [LETTERS[k]] + x;
    assert ([LETTERS[k]] + x)[1..] == x;
    assert UnitLetter(u[|sep|..], k) == Suffix(x, k);
    assert AfterDigits(u, k) == Suffix(x, k);
  }

  /** A run of word characters that ends the text is the last suffix. */
  lemma SuffixLast(w: string, k: nat)
    requires k < 5 && AllWord(w)
    ensures Suffix(w, k) == Some(Nones(4 - k))
  {
    assert w + [] == w;
    WordRunOf(w, []);
    EmptyMatches(k + 1);
    assert w[|w|..] == [];
  }

  /** A run of word characters and a space: the later components follow. */
  lemma SuffixThen(w: string, rest: string, k: nat)
    requires k < 5 && AllWord(w)
    requires Components(rest, k + 1).Some?
    ensures Suffix(w + " " + rest, k) == Components(rest, k + 1)
  {
    var v := w + " " + rest;
    assert v == w + (" " + rest);
    WordRunOf(w, " " + rest);
    assert v[|w|..] == " " + rest;
    assert (" " + rest)[1..] == rest;
    assert TryWord(v, k, |w|) == Components(rest, k + 1);
  }

  /** The last component present: its digits, an optional space, its letter
      and a run of word characters take the rest of the text. */
  lemma ComponentLast(d: string, sep: string, w: string, k: nat)
    requires k < 5 && AllDigits(d) && d != []
    requires sep == "" || sep == " "
    requires AllWord(w)
    ensures Present(d + sep + [LETTERS[k]] + w, k) == Some([Some(d)] + Nones(4 - k))
  {
    SuffixLast(w, k);
    PresentWhenSuffix(d, sep, w, k);
  }

  /** A component present with more to follow: its digits, an optional space,
      its letter, a run of word characters and a space, then the later
      components match the rest. */
  lemma ComponentThen(d: string, sep: string, w: string, rest: string, k: nat)
    requires k < 5 && AllDigits(d) && d != []
    requires sep == "" || sep == " "
    requires AllWord(w)
    requires Components(rest, k + 1).Some?
    ensures Present(d + sep + [LETTERS[k]] + w + " " + rest, k)
         == Some([Some(d)] + Components(rest, k + 1).value)
  {
    SuffixThen(w, rest, k);
    PresentWhenSuffix(d, sep, w + " " + rest, k);
    Regroup(d + sep + [LETTERS[k]], w, " ", rest);
  }

  lemma Regroup(x: string, a: string, b: string, c: string)
    ensures x + (a + b + c) == x + a + b + c
  {
  }

  /** Components `lo` to `k - 1` absent and component `k` present. */
  lemma PresentAt(t: string, lo: nat, k: nat)
    requires lo <= k < 5
    requires forall j :: lo <= j < k ==> Present(t, j).None?
    requires Present(t, k).Some?
    ensures Components(t, lo) == Some(Nones(k - lo) + Present(t, k).value)
  {
    SkipAbsent(t, lo, k);
  }

  /** Digits followed by the letter of component `k` cannot stand for an
      earlier component. */
  lemma EarlierFail(d: string, sep: string, rest: string, lo: nat, k: nat)
    requires lo <= k < 5 && AllDigits(d) && d != []
    requires sep == "" || sep == " "
    ensures forall j :: lo <= j < k ==> Present(d + sep + [LETTERS[k]] + rest, j).None?
  {
    forall j | lo <= j < k
      ensures Present(d + sep + [LETTERS[k]] + rest, j).None?
    {
      LettersDistinct(j, k);
      PresentFails(d, sep, LETTERS[k], rest, j);
    }
  }

  /** The text is one component, `k`: it is captured and the others are absent. */
  lemma ComponentsLast(d: string, sep: string, w: string, lo: nat, k: nat)
    requires lo <= k < 5 && AllDigits(d) && d != []
    requires sep == "" || sep == " "
    requires AllWord(w)
    ensures Components(d + sep + [LETTERS[k]] + w, lo) == Some(Nones(k - lo) + [Some(d)] + Nones(4 - k))
  {
    var t := d + sep + [LETTERS[k]] + w;
    EarlierFail(d, sep, w, lo, k);
    ComponentLast(d, sep, w, k);
    PresentAt(t, lo, k);
    assert Nones(k - lo) + ([Some(d)] + Nones(4 - k)) == Nones(k - lo) + [Some(d)] + Nones(4 - k);
  }

  /** The text starts with component `k`, and a space separates it from the
      later components. */
  lemma ComponentsThen(d: string, sep: string, w: string, rest: string, lo: nat, k: nat)
    requires lo <= k < 5 && AllDigits(d) && d != []
    requires sep == "" || sep == " "
    requires AllWord(w)
    requires Components(rest, k + 1).Some?
    ensures Components(d + sep + [LETTERS[k]] + w + " " + rest, lo)
         == Some(Nones(k - lo) + [Some(d)] + Components(rest, k + 1).value)
  {
    var t := d + sep + [LETTERS[k]] + w + " " + rest;
    var caps := Components(rest, k + 1).value;
    assert t == d + sep + [LETTERS[k]] + (w + " " + rest);
    EarlierFail(d, sep, w + " " + rest, lo, k);
    ComponentThen(d, sep, w, rest, k);
    PresentAt(t, lo, k);
    assert Nones(k - lo) + ([Some(d)] + caps) == Nones(k - lo) + [Some(d)] + caps;
  }

  /** One component as a text writes it: digits, an optional space, the unit
      letter of component `k` and a run of word characters. */
  datatype Piece = Piece(digits: string, sep: string, k: nat, word: string)

  predicate PieceOk(p: Piece)
  {
    AllDigits(p.digits) && p.digits != [] && (p.sep == "" || p.sep == " ") && p.k < 5 && AllWord(p.word)
  }

  function Written(p: Piece): string
    requires p.k < 5
  {
    p.digits + p.sep + [LETTERS[p.k]] + p.word
  }

  /** Well-formed pieces for components `lo` on, in the pattern's order. */
  predicate Ordered(ps: seq<Piece>, lo: nat)
  {
    ps == [] || (PieceOk(ps[0]) && lo <= ps[0].k && Ordered(ps[1..], ps[0].k + 1))
  }

  /** The pieces separated by single spaces. */
  function Render(ps: seq<Piece>, lo: nat): string
    requires Ordered(ps, lo)
  {
    if ps == [] then ""
    else if |ps| == 1 then Written(ps[0])
    else Written(ps[0]) + " " + Render(ps[1..], ps[0].k + 1)
  }

  /** The captures the pieces stand for, for components `lo` to 4. */
  function CapsOf(ps: seq<Piece>, lo: nat): (caps: Captures)
    requires lo <= 5 && Ordered(ps, lo)
    ensures WellFormed(caps, lo)
    decreases 5 - lo
  {
    if lo == 5 then []
    else if ps != [] && ps[0].k == lo then [Some(ps[0].digits)] + CapsOf(ps[1..], lo + 1)
    else [None] + CapsOf(ps, lo + 1)
  }

  lemma {:induction false} CapsOfNone(lo: nat)
    requires lo <= 5
    ensures CapsOf([], lo) == Nones(5 - lo)
    decreases 5 - lo
  {
    if lo < 5 {
      CapsOfNone(lo + 1);
    }
  }

  /** Components before the first piece's are absent. */
  lemma {:induction false} CapsOfSkip(ps: seq<Piece>, lo: nat)
    requires ps != [] && Ordered(ps, lo)
    ensures CapsOf(ps, lo) == Nones(ps[0].k - lo) + [Some(ps[0].digits)] + CapsOf(ps[1..], ps[0].k + 1)
    decreases ps[0].k - lo
  {
    if lo < ps[0].k {
      CapsOfSkip(ps, lo + 1);
      assert Nones(ps[0].k - lo) == [None] + Nones(ps[0].k - lo - 1);
    }
  }

  /** Components written in the pattern's order, separated by spaces, match
      with each component's digits captured and the others absent. */
  lemma {:induction false} RenderMatches(ps: seq<Piece>, lo: nat)
    requires lo <= 5 && Ordered(ps, lo)
    ensures Components(Render(ps, lo), lo) == Some(CapsOf(ps, lo))
    decreases |ps|
  {
    if ps == [] {
      EmptyMatches(lo);
      CapsOfNone(lo);
    } else if |ps| == 1 {
      RenderMatchesOne(ps, lo);
    } else {
      RenderMatches(ps[1..], ps[0].k + 1);
      RenderMatchesStep(ps, lo);
    }
  }

  lemma RenderMatchesOne(ps: seq<Piece>, lo: nat)
    requires lo <= 5 && Ordered(ps, lo) && |ps| == 1
    ensures Components(Render(ps, lo), lo) == Some(CapsOf(ps, lo))
  {
    var p := ps[0];
    CapsOfSkip(ps, lo);
    assert Render(ps, lo) == p.digits + p.sep + [LETTERS[p.k]] + p.word;
    ComponentsLast(p.digits, p.sep, p.word, lo, p.k);
    assert ps[1..] == [];
    CapsOfNone(p.k + 1);
  }

  lemma RenderMatchesStep(ps: seq<Piece>, lo: nat)
    requires lo <= 5 && Ordered(ps, lo) && |ps| > 1
    requires Components(Render(ps[1..], ps[0].k + 1), ps[0].k + 1) == Some(CapsOf(ps[1..], ps[0].k + 1))
    ensures Components(Render(ps, lo), lo) == Some(CapsOf(ps, lo))
  {
    var p := ps[0];
    CapsOfSkip(ps, lo);
    var rest := Render(ps[1..], p.k + 1);
    assert Render(ps, lo) == p.digits + p.sep + [LETTERS[p.k]] + p.word + " " + rest;
    ComponentsThen(p.digits, p.sep, p.word, rest, lo, p.k);
  }

  /** Digits followed by a colon are no component. */
  lemma ColonNoMatch(d: string, rest: string)
    requires AllDigits(d) && d != []
    ensures Match(d + ":" + rest).None?
  {
    assert LETTERS == ['y', 'd', 'h', 'm', 's'];
    OtherCharNoMatch(d, ':', rest);
  }

  /** A text that does not start with a digit matches only if it is empty. */
  lemma NoDigitNoMatch(t: string)
    requires t != [] && !IsDigit(t[0])
    ensures Match(t).None?
  {
    SkipAbsent(t, 0, 5);
  }

  /** Digits alone, without a unit letter, do not match. */
  lemma DigitsOnlyNoMatch(t: string)
    requires t != [] && AllDigits(t)
    ensures Match(t).None?
  {
    assert t + [] == t;
    DigitRunOf(t, []);
    forall j | 0 <= j < 5
      ensures Present(t, j).None?
    {
      LettersDistinct(j, j);
      forall i | 1 <= i <= |t|
        ensures AfterDigits(t[i..], j).None?
      {
        if i < |t| {
          assert t[i..][0] == t[i];
        }
      }
      DigitsAllFail(t, j, |t|);
    }
    SkipAbsent(t, 0, 5);
  }

  /** Digits followed by a character that is neither a digit, a space nor a
      unit letter: no match. */
  lemma OtherCharNoMatch(d: string, c: char, rest: string)
    requires AllDigits(d) && d != []
    requires !IsDigit(c) && c != ' ' && c !in LETTERS
    ensures Match(d + [c] + rest).None?
  {
    forall j | 0 <= j < 5
      ensures Present(d + "" + [c] + rest, j).None?
    {
      PresentFails(d, "", c, rest, j);
    }
    assert d + "" + [c] + rest == d + [c] + rest;
    SkipAbsent(d + [c] + rest, 0, 5);
  }
}
