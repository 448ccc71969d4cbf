/** formatDuration's text read back by getMillis: without the tenths of a
    second, in the short and in the long form, the text parses to the
    milliseconds of the groups it prints. */
module RoundTrip {
  import opened Units
  import opened Numbers
  import opened Text
  import opened TextProperties
  import opened DurationPattern
  import opened PatternProperties
  import opened Parser
  import opened ParserProperties
  import opened Formatter
  import opened FormatterProperties

  /** A long unit name after its initial, in lower case. */
  function LongTail(u: TimeUnit): string
  {
    match u
    case YEAR => "ear"
    case DAY => "ay"
    case HOUR => "our"
    case MINUTE => "inute"
    case SECOND => "econd"
  }

  /** How the pattern sees a printed group: the value, a blank in the long
      form, the unit's letter and the rest of the long name. */
  function PieceOf(e: Entry, longName: bool): Piece
  {
    if longName then Piece(NatToString(e.value), " ", Ordinal(e.unit), LongTail(e.unit) + (if e.value > 1 then "s" else ""))
    else Piece(NatToString(e.value), "", Ordinal(e.unit), "")
  }

  function PiecesOf(es: seq<Entry>, longName: bool): (ps: seq<Piece>)
    ensures |ps| == |es|
    ensures forall i :: 0 <= i < |es| ==> ps[i] == PieceOf(es[i], longName)
  {
    if es == [] then [] else [PieceOf(es[0], longName)] + PiecesOf(es[1..], longName)
  }

  /** Entries for the units with consecutive ordinals from `lo` on. */
  predicate Consecutive(es: seq<Entry>, lo: nat)
  {
    lo + |es| <= |AllUnits| && forall i :: 0 <= i < |es| ==> es[i].unit == AllUnits[lo + i]
  }

  /** The groups formatDuration prints. */
  function Printed(millis: nat, biggestUnit: TimeUnit, maxUnits: int): seq<Entry>
  {
    var es := Entries(millis + 999, Ordinal(biggestUnit), |AllUnits|);
    es[FirstShown(es)..StopAt(es, maxUnits)]
  }

  lemma ConsecutiveTail(es: seq<Entry>, lo: nat)
    requires Consecutive(es, lo) && es != []
    ensures Consecutive(es[1..], lo + 1)
  {
    assert forall i :: 0 <= i < |es| - 1 ==> es[1..][i] == es[i + 1];
  }

  lemma PieceOfOk(e: Entry, longName: bool)
    ensures PieceOk(PieceOf(e, longName)) && NoUpper(PieceOf(e, longName).word)
    ensures PieceOf(e, longName).k == Ordinal(e.unit)
    ensures DigitsValue(PieceOf(e, longName).digits) == e.value
  {
    NatToStringDigits(e.value);
  }

  lemma {:induction false} PiecesOrdered(es: seq<Entry>, lo: nat, longName: bool)
    requires Consecutive(es, lo)
    ensures Ordered(PiecesOf(es, longName), lo) && WordsLower(PiecesOf(es, longName))
    decreases |es|
  {
    if es != [] {
      var ps := PiecesOf(es, longName);
      PieceOfOk(es[0], longName);
      Units.OrdinalOfIndex(lo);
      ConsecutiveTail(es, lo);
      PiecesOrdered(es[1..], lo + 1, longName);
      assert ps[1..] == PiecesOf(es[1..], longName);
    }
  }

  /** Sum, taken from the front. */
  lemma {:induction false} SumFront(e: Entry, es: seq<Entry>)
    ensures Sum([e] + es) == e.value * Factor(e.unit) + Sum(es)
    decreases |es|
  {
    var s := [e] + es;
    if es == [] {
      assert s[..0] == [];
    } else {
      assert s[..|s| - 1] == [e] + es[..|es| - 1];
      SumFront(e, es[..|es| - 1]);
    }
  }

  lemma {:induction false} SumAppend(x: seq<Entry>, y: seq<Entry>)
    ensures Sum(x + y) == Sum(x) + Sum(y)
    decreases |y|
  {
    if y != [] {
      assert (x + y)[..|x + y| - 1] == x + y[..|y| - 1];
      SumAppend(x, y[..|y| - 1]);
    } else {
      assert x + y == x;
    }
  }

  lemma {:induction false} SumNonNegative(x: seq<Entry>)
    ensures Sum(x) >= 0
    decreases |x|
  {
    if x != [] {
      SumNonNegative(x[..|x| - 1]);
    }
  }

  lemma {:induction false} SumOfZeros(x: seq<Entry>)
    requires forall i :: 0 <= i < |x| ==> x[i].value == 0
    ensures Sum(x) == 0
    decreases |x|
  {
    if x != [] {
      SumOfZeros(x[..|x| - 1]);
    }
  }

  /** The pieces stand for the milliseconds the entries stand for. */
  lemma {:induction false} PiecesSumIsSum(es: seq<Entry>, lo: nat, longName: bool)
    requires Consecutive(es, lo)
    ensures Ordered(PiecesOf(es, longName), lo)
    ensures PiecesSum(PiecesOf(es, longName), lo) == Sum(es)
    decreases |es|
  {
    PiecesOrdered(es, lo, longName);
    if es != [] {
      var ps := PiecesOf(es, longName);
      ConsecutiveTail(es, lo);
      PiecesSumIsSum(es[1..], lo + 1, longName);
      assert ps[1..] == PiecesOf(es[1..], longName);
      HeadTerm(ps, es[0], lo, longName);
      SumFront(es[0], es[1..]);
      assert [es[0]] + es[1..] == es;
    }
  }

  /** The first piece stands for the first entry's milliseconds. */
  lemma HeadTerm(ps: seq<Piece>, e: Entry, lo: nat, longName: bool)
    requires Ordered(ps, lo) && ps != [] && ps[0] == PieceOf(e, longName)
    requires lo < |AllUnits| && e.unit == AllUnits[lo]
    ensures ps[0].k == lo
    ensures PiecesSum(ps, lo) == e.value * Factor(e.unit) + PiecesSum(ps[1..], lo + 1)
  {
    PieceOfOk(e, longName);
    Units.OrdinalOfIndex(lo);
  }

  /** Below 2^53 milliseconds every value is a `Long` and the years are exact. */
  lemma {:induction false} PiecesFit(es: seq<Entry>, lo: nat, longName: bool)
    requires Consecutive(es, lo) && Sum(es) <= DOUBLE_EXACT
    ensures Ordered(PiecesOf(es, longName), lo) && Fits(PiecesOf(es, longName), lo)
    decreases |es|
  {
    PiecesOrdered(es, lo, longName);
    if es != [] {
      var ps := PiecesOf(es, longName);
      ConsecutiveTail(es, lo);
      TailSum(es);
      HeadFits(ps, es[0], lo, longName);
      PiecesFit(es[1..], lo + 1, longName);
      assert ps[1..] == PiecesOf(es[1..], longName);
    }
  }

  /** The first entry and the others each stand for no more than all. */
  lemma TailSum(es: seq<Entry>)
    requires es != []
    ensures 0 <= es[0].value * Factor(es[0].unit) <= Sum(es)
    ensures 0 <= Sum(es[1..]) <= Sum(es)
  {
    SumFront(es[0], es[1..]);
    assert [es[0]] + es[1..] == es;
    SumNonNegative(es[1..]);
  }

  /** A first entry worth at most 2^53 milliseconds fits. */
  lemma HeadFits(ps: seq<Piece>, e: Entry, lo: nat, longName: bool)
    requires Ordered(ps, lo) && ps != [] && ps[0] == PieceOf(e, longName)
    requires lo < |AllUnits| && e.unit == AllUnits[lo]
    requires e.value * Factor(e.unit) <= DOUBLE_EXACT
    ensures ps[0].k == lo
    ensures DigitsValue(ps[0].digits) <= LONG_MAX
    ensures ps[0].k == 0 ==> DigitsValue(ps[0].digits) * FACTOR_YEARS <= DOUBLE_EXACT
  {
    PieceOfOk(e, longName);
    Units.OrdinalOfIndex(lo);
    MulGrows(e.value, Factor(e.unit));
  }

  lemma MulGrows(v: nat, f: nat)
    requires f >= 1
    ensures v <= v * f
  {
  }

  /** groupsText, taken from the front. */
  lemma {:induction false} GroupsFront(e: Entry, es: seq<Entry>, rest: nat, longName: bool)
    ensures GroupsText([e] + es, rest, false, longName)
         == GroupText(e, rest, false, longName) + GroupsText(es, rest, false, longName)
    decreases |es|
  {
    if es == [] {
      GroupsOne(e, rest, longName);
      assert [e] + es == [e];
    } else {
      var s, init, last := [e] + es, es[..|es| - 1], es[|es| - 1];
      assert s[..|s| - 1] == [e] + init && s[|s| - 1] == last;
      GroupsFront(e, init, rest, longName);
      var g, gi, gl := GroupText(e, rest, false, longName), GroupsText(init, rest, false, longName),
                       GroupText(last, rest, false, longName);
      assert GroupsText(s, rest, false, longName) == g + gi + gl;
      assert GroupsText(es, rest, false, longName) == gi + gl;
    }
  }

  lemma GroupsSplit(es: seq<Entry>, rest: nat, longName: bool)
    requires es != []
    ensures GroupsText(es, rest, false, longName)
         == GroupText(es[0], rest, false, longName) + GroupsText(es[1..], rest, false, longName)
  {
    GroupsFront(es[0], es[1..], rest, longName);
    assert [es[0]] + es[1..] == es;
  }

  lemma GroupsOne(e: Entry, rest: nat, longName: bool)
    ensures GroupsText([e], rest, false, longName) == GroupText(e, rest, false, longName)
  {
    assert [e][..0] == [];
  }

  lemma LowerDigits(s: string)
    requires AllDigits(s)
    ensures Lower(s) == s
  {
  }

  /** A long name, lower-cased, is the unit's letter and the tail. */
  lemma LowerLongName(u: TimeUnit)
    ensures Lower(" " + LongName(u)) == " " + [LETTERS[Ordinal(u)]] + LongTail(u)
  {
    match u
    case YEAR => LowerYear();
    case DAY => LowerDay();
    case HOUR => LowerHour();
    case MINUTE => LowerMinute();
    case SECOND => LowerSecond();
  }

  lemma LowerYear()
    ensures Lower(" " + LongName(YEAR)) == " " + [LETTERS[Ordinal(YEAR)]] + LongTail(YEAR)
  {
    var n, l := " " + LongName(YEAR), " " + [LETTERS[Ordinal(YEAR)]] + LongTail(YEAR);
    assert n == " Year" && l == " year";
    LowerWord(n, l);
  }

  lemma LowerDay()
    ensures Lower(" " + LongName(DAY)) == " " + [LETTERS[Ordinal(DAY)]] + LongTail(DAY)
  {
    var n, l := " " + LongName(DAY), " " + [LETTERS[Ordinal(DAY)]] + LongTail(DAY);
    assert n == " Day" && l == " day";
    LowerWord(n, l);
  }

  lemma LowerHour()
    ensures Lower(" " + LongName(HOUR)) == " " + [LETTERS[Ordinal(HOUR)]] + LongTail(HOUR)
  {
    var n, l := " " + LongName(HOUR), " " + [LETTERS[Ordinal(HOUR)]] + LongTail(HOUR);
    assert n == " Hour" && l == " hour";
    LowerWord(n, l);
  }

  lemma LowerMinute()
    ensures Lower(" " + LongName(MINUTE)) == " " + [LETTERS[Ordinal(MINUTE)]] + LongTail(MINUTE)
  {
    var n, l := " " + LongName(MINUTE), " " + [LETTERS[Ordinal(MINUTE)]] + LongTail(MINUTE);
    assert n == " Minute" && l == " minute";
    LowerWord(n, l);
  }

  lemma LowerSecond()
    ensures Lower(" " + LongName(SECOND)) == " " + [LETTERS[Ordinal(SECOND)]] + LongTail(SECOND)
  {
    var n, l := " " + LongName(SECOND), " " + [LETTERS[Ordinal(SECOND)]] + LongTail(SECOND);
    assert n == " Second" && l == " second";
    LowerWord(n, l);
  }

  lemma LowerWord(n: string, l: string)
    requires |n| == |l| && forall i :: 0 <= i < |n| ==> LowerChar(n[i]) == l[i]
    ensures Lower(n) == l
  {
  }

  /** A unit's printed name, lower-cased, is the pattern's separator, letter
      and word. */
  lemma LowerUnitName(e: Entry, longName: bool)
    ensures var p := PieceOf(e, longName);
            Lower(UnitName(e, longName)) == p.sep + [LETTERS[p.k]] + p.word
  {
    assert LETTERS == ['y', 'd', 'h', 'm', 's'];
    if longName {
      var plural := if e.value > 1 then "s" else "";
      LowerAppend(" " + LongName(e.unit), plural);
      LowerLongName(e.unit);
      assert Lower(plural) == plural;
    } else {
      assert Lower(ShortName(e.unit)) == ShortName(e.unit);
    }
  }

  /** One group, lower-cased, is the piece written out and, unless it is the
      SECOND group, a blank. */
  lemma GroupLower(e: Entry, rest: nat, longName: bool)
    ensures Lower(GroupText(e, rest, false, longName))
         == Written(PieceOf(e, longName)) + (if e.unit == SECOND then "" else " ")
  {
    var p := PieceOf(e, longName);
    var d, name := NatToString(e.value), UnitName(e, longName);
    var tail := if e.unit == SECOND then "" else " ";
    assert GroupText(e, rest, false, longName) == d + name + tail;
    NatToStringDigits(e.value);
    LowerDigits(d);
    LowerUnitName(e, longName);
    var w := p.sep + [LETTERS[p.k]] + p.word;
    assert Lower(name) == w;
    LowerAppend(d + name, tail);
    LowerAppend(d, name);
    assert Lower(tail) == tail;
    assert Lower(d + name + tail) == d + w + tail;
    WrittenSplit(p);
  }

  lemma WrittenSplit(p: Piece)
    requires p.k < 5
    ensures Written(p) == p.digits + (p.sep + [LETTERS[p.k]] + p.word)
  {
  }

  /** The groups, lower-cased, are the pieces separated by blanks, with a
      blank after them when the SECOND group is not among them. */
  lemma {:induction false} GroupsLower(es: seq<Entry>, lo: nat, rest: nat, longName: bool)
    requires Consecutive(es, lo) && es != []
    ensures Ordered(PiecesOf(es, longName), lo)
    ensures Lower(GroupsText(es, rest, false, longName))
         == Render(PiecesOf(es, longName), lo) + (if es[|es| - 1].unit == SECOND then "" else " ")
    decreases |es|
  {
    if |es| == 1 {
      GroupsLowerOne(es, lo, rest, longName);
    } else {
      ConsecutiveTail(es, lo);
      GroupsLower(es[1..], lo + 1, rest, longName);
      assert es[1..][|es[1..]| - 1] == es[|es| - 1];
      GroupsLowerStep(es, lo, rest, longName);
    }
  }

  lemma GroupsLowerStep(es: seq<Entry>, lo: nat, rest: nat, longName: bool)
    requires Consecutive(es, lo) && |es| > 1 && Ordered(PiecesOf(es[1..], longName), lo + 1)
    requires Lower(GroupsText(es[1..], rest, false, longName))
          == Render(PiecesOf(es[1..], longName), lo + 1) + (if es[|es| - 1].unit == SECOND then "" else " ")
    ensures Ordered(PiecesOf(es, longName), lo)
    ensures Lower(GroupsText(es, rest, false, longName))
         == Render(PiecesOf(es, longName), lo) + (if es[|es| - 1].unit == SECOND then "" else " ")
  {
    var e := es[0];
    Units.OrdinalOfIndex(lo);
    assert e.unit != SECOND;
    RenderFront(es, lo, longName);
    GroupsSplit(es, rest, longName);
    GroupLowerSpaced(e, rest, longName);
    JoinLower(GroupText(e, rest, false, longName), GroupsText(es[1..], rest, false, longName),
              Written(PieceOf(e, longName)), Render(PiecesOf(es[1..], longName), lo + 1),
              if es[|es| - 1].unit == SECOND then "" else " ");
  }

  /** The pieces of consecutive entries, rendered from the front. */
  lemma RenderFront(es: seq<Entry>, lo: nat, longName: bool)
    requires Consecutive(es, lo) && |es| > 1
    ensures Ordered(PiecesOf(es, longName), lo)
    ensures Render(PiecesOf(es, longName), lo)
         == Written(PieceOf(es[0], longName)) + " " + Render(PiecesOf(es[1..], longName), lo + 1)
  {
    PiecesOrdered(es, lo, longName);
    var ps := PiecesOf(es, longName);
    PieceOfOk(es[0], longName);
    Units.OrdinalOfIndex(lo);
    assert ps[1..] == PiecesOf(es[1..], longName);
  }

  lemma GroupsLowerOne(es: seq<Entry>, lo: nat, rest: nat, longName: bool)
    requires Consecutive(es, lo) && |es| == 1
    ensures Ordered(PiecesOf(es, longName), lo)
    ensures Lower(GroupsText(es, rest, false, longName))
         == Render(PiecesOf(es, longName), lo) + (if es[0].unit == SECOND then "" else " ")
  {
    PiecesOrdered(es, lo, longName);
    GroupLower(es[0], rest, longName);
    GroupsOne(es[0], rest, longName);
    assert [es[0]] == es;
  }

  /** A group before the SECOND group, lower-cased, is its piece and a blank. */
  lemma GroupLowerSpaced(e: Entry, rest: nat, longName: bool)
    requires e.unit != SECOND
    ensures Lower(GroupText(e, rest, false, longName)) == Written(PieceOf(e, longName)) + " "
  {
    GroupLower(e, rest, longName);
  }

  lemma JoinLower(g: string, gs: string, w: string, r: string, tail: string)
    requires Lower(g) == w + " " && Lower(gs) == r + tail
    ensures Lower(g + gs) == w + " " + r + tail
  {
    LowerAppend(g, gs);
  }

  /** Ordered pieces from `lo` on are ordered from 0 on, and read the same. */
  lemma FromZero(ps: seq<Piece>, lo: nat)
    requires Ordered(ps, lo)
    ensures Ordered(ps, 0) && Render(ps, 0) == Render(ps, lo) && PiecesSum(ps, 0) == PiecesSum(ps, lo)
    ensures Fits(ps, lo) ==> Fits(ps, 0)
  {
  }

  /** Lower-case text followed by blanks is seen by the pattern as the text. */
  lemma NormalizePadded(t: string, r: string, tail: string)
    requires Lower(t) == r + tail && Lower(r) == r && AllWhitespace(tail)
    ensures Normalize(t) == Normalize(r)
  {
    TrimTrailing(r, tail);
    assert Normalize(t) == Trim(r + tail);
  }

  lemma RenderUnchangedByLower(ps: seq<Piece>)
    requires Ordered(ps, 0) && WordsLower(ps)
    ensures Lower(Render(ps, 0)) == Render(ps, 0)
  {
    RenderLower(ps, 0);
  }

  /** Printed groups for consecutive units read back as their sum. */
  lemma GroupsReadBack(es: seq<Entry>, lo: nat, rest: nat, longName: bool)
    requires Consecutive(es, lo) && es != [] && Sum(es) <= DOUBLE_EXACT
    ensures var t := GroupsText(es, rest, false, longName);
            InModel(t) && ParseDuration(t) == Ok(Sum(es))
  {
    var t := GroupsText(es, rest, false, longName);
    var ps := PiecesOf(es, longName);
    GroupsNormal(es, lo, rest, longName);
    GroupsValue(es, lo, longName);
    ReadBackMatch(ps);
    ReadBackValue(t, ps);
  }

  /** The pattern sees the groups as the pieces rendered from the first unit. */
  lemma GroupsNormal(es: seq<Entry>, lo: nat, rest: nat, longName: bool)
    requires Consecutive(es, lo) && es != []
    ensures Ordered(PiecesOf(es, longName), 0) && WordsLower(PiecesOf(es, longName))
    ensures Normalize(GroupsText(es, rest, false, longName)) == Normalize(Render(PiecesOf(es, longName), 0))
  {
    var t := GroupsText(es, rest, false, longName);
    var ps := PiecesOf(es, longName);
    var tail := if es[|es| - 1].unit == SECOND then "" else " ";
    PiecesOrdered(es, lo, longName);
    FromZero(ps, lo);
    GroupsLower(es, lo, rest, longName);
    RenderUnchangedByLower(ps);
    NormalizePadded(t, Render(ps, 0), tail);
  }

  /** The pieces fit and stand for the entries' milliseconds. */
  lemma GroupsValue(es: seq<Entry>, lo: nat, longName: bool)
    requires Consecutive(es, lo) && Sum(es) <= DOUBLE_EXACT
    ensures Ordered(PiecesOf(es, longName), 0) && Fits(PiecesOf(es, longName), 0)
    ensures Int64(PiecesSum(PiecesOf(es, longName), 0)) == Sum(es)
  {
    var ps := PiecesOf(es, longName);
    PiecesFit(es, lo, longName);
    PiecesSumIsSum(es, lo, longName);
    FromZero(ps, lo);
  }


  /** The printed groups are consecutive, and SECOND closes them unless
      `maxUnits` cut them off. */
  lemma PrintedConsecutive(millis: nat, biggestUnit: TimeUnit, maxUnits: int)
    ensures var es := Entries(millis + 999, Ordinal(biggestUnit), |AllUnits|);
            var p := Printed(millis, biggestUnit, maxUnits);
            p != [] && Consecutive(p, Ordinal(biggestUnit) + FirstShown(es))
  {
    var o := Ordinal(biggestUnit);
    var es := Entries(millis + 999, o, |AllUnits|);
    assert es[|es| - 1].unit == SECOND;
    SliceConsecutive(es, o, FirstShown(es), StopAt(es, maxUnits));
  }

  lemma SliceConsecutive(es: seq<Entry>, o: nat, first: nat, stop: nat)
    requires Consecutive(es, o) && first < stop <= |es|
    ensures es[first..stop] != [] && Consecutive(es[first..stop], o + first)
  {
    var p := es[first..stop];
    assert forall i :: 0 <= i < |p| ==> p[i] == es[first + i];
  }

  /** The printed groups stand for at most the input rounded up, and for all
      of its whole seconds unless `maxUnits` cut them off. */
  lemma PrintedSum(millis: nat, biggestUnit: TimeUnit, maxUnits: int)
    ensures var es := Entries(millis + 999, Ordinal(biggestUnit), |AllUnits|);
            var p := Printed(millis, biggestUnit, maxUnits);
            0 <= Sum(p) <= millis + 999
            && (StopAt(es, maxUnits) == |es| ==> Sum(p) == Sum(es))
  {
    var o := Ordinal(biggestUnit);
    var ms := millis + 999;
    var es := Entries(ms, o, |AllUnits|);
    assert Sum(es) <= ms by {
      DecompositionSum(ms, o, |AllUnits|);
    }
    SliceSum(es, FirstShown(es), StopAt(es, maxUnits));
  }

  /** Dropping leading zero entries and any tail leaves at most the sum, and
      all of it when no tail is dropped. */
  lemma SliceSum(es: seq<Entry>, first: nat, stop: nat)
    requires first <= stop <= |es|
    requires forall j :: 0 <= j < first ==> !Shown(es[j])
    ensures 0 <= Sum(es[first..stop]) <= Sum(es)
    ensures stop == |es| ==> Sum(es[first..stop]) == Sum(es)
  {
    var a, p, b := es[..first], es[first..stop], es[stop..];
    assert Sum(es) == Sum(a) + Sum(p) + Sum(b) by {
      assert es == a + p + b;
      SumAppend(a + p, b);
      SumAppend(a, p);
    }
    assert Sum(a) == 0 by {
      assert forall i :: 0 <= i < |a| ==> a[i] == es[i];
      SumOfZeros(a);
    }
    SumNonNegative(p);
    SumNonNegative(b);
    if stop == |es| {
      assert b == [];
    }
  }

  /** Formatting without tenths and parsing the text gives the milliseconds
      of the printed groups, in the short and in the long form. */
  lemma PrintedReadsBack(millis: nat, biggestUnit: TimeUnit, longName: bool, maxUnits: int)
    requires millis + 999 <= DOUBLE_EXACT
    ensures var t := DurationText(millis, biggestUnit, false, longName, maxUnits);
            InModel(t) && ParseDuration(t) == Ok(Sum(Printed(millis, biggestUnit, maxUnits)))
  {
    var o := Ordinal(biggestUnit);
    var es := Entries(millis + 999, o, |AllUnits|);
    PrintedConsecutive(millis, biggestUnit, maxUnits);
    PrintedSum(millis, biggestUnit, maxUnits);
    GroupsReadBack(Printed(millis, biggestUnit, maxUnits), o + FirstShown(es),
                   Rest(millis + 999, o, |AllUnits|), longName);
  }

  /** Without a limit on the groups, formatting and parsing give the input
      rounded up to whole seconds. */
  lemma FormatThenParse(millis: nat, biggestUnit: TimeUnit, longName: bool, maxUnits: int)
    requires millis + 999 <= DOUBLE_EXACT && maxUnits <= 0
    ensures var t := DurationText(millis, biggestUnit, false, longName, maxUnits);
            InModel(t) && ParseDuration(t) == Ok((millis + 999) / 1000 * 1000)
  {
    var o := Ordinal(biggestUnit);
    var ms := millis + 999;
    PrintedReadsBack(millis, biggestUnit, longName, maxUnits);
    PrintedSum(millis, biggestUnit, maxUnits);
    DecompositionSum(ms, o, |AllUnits|);
    FinalRemainder(millis, biggestUnit);
    assert ms == (ms / 1000) * 1000 + ms % 1000;
  }
}
