/** What formatDuration's text means: the decomposition it prints, which groups
    it prints, and how each group looks. */
module FormatterProperties {
  import opened Units
  import opened Numbers
  import opened Formatter

  /** The decomposition loses nothing: the entries and the remainder add up to
      the input. */
  lemma {:induction false} DecompositionSum(ms: nat, lo: nat, hi: nat)
    requires hi <= |AllUnits|
    ensures Sum(Entries(ms, lo, hi)) + Rest(ms, lo, hi) == ms
  {
    if hi > lo {
      DecompositionSum(ms, lo, hi - 1);
      var es := Entries(ms, lo, hi);
      assert es[..|es| - 1] == Entries(ms, lo, hi - 1);
      DivMod(Rest(ms, lo, hi - 1), Factor(AllUnits[hi - 1]));
    }
  }

  /** The i-th entry holds the quotient of what the larger units left over. */
  lemma {:induction false} EntryAt(ms: nat, lo: nat, hi: nat, i: nat)
    requires lo <= hi <= |AllUnits| && i < hi - lo
    ensures Entries(ms, lo, hi)[i]
         == Entry(AllUnits[lo + i], Rest(ms, lo, lo + i) / Factor(AllUnits[lo + i]))
  {
    if i < hi - 1 - lo {
      EntryAt(ms, lo, hi - 1, i);
    }
  }

  /** A unit below the biggest one never holds more than fits in the next larger
      unit: 24 hours, 60 minutes, 60 seconds, 366 (started) days of a year. */
  lemma ValueBound(ms: nat, lo: nat, i: nat)
    requires lo < |AllUnits| && 0 < i < |AllUnits| - lo
    ensures Entries(ms, lo, |AllUnits|)[i].value < Capacity(AllUnits[lo + i - 1])
  {
    EntryAt(ms, lo, |AllUnits|, i);
    var r := Rest(ms, lo, lo + i);
    var u := AllUnits[lo + i - 1];
    Units.OrdinalOfIndex(lo + i - 1);
    var f := Factor(NextSmaller(u));
    assert AllUnits[lo + i] == NextSmaller(u);
    assert r < Factor(u) <= Capacity(u) * f;
    assert (r / f) * f <= r;
  }

  /** Every factor is a whole number of seconds, so the remainder keeps the
      sub-second part of the input. */
  lemma {:induction false} RestKeepsSubSecond(ms: nat, lo: nat, hi: nat)
    requires hi <= |AllUnits|
    ensures Rest(ms, lo, hi) % 1000 == ms % 1000
  {
    if hi > lo {
      RestKeepsSubSecond(ms, lo, hi - 1);
      SubSecondOfRemainder(Rest(ms, lo, hi - 1), AllUnits[hi - 1]);
    }
  }

  lemma DivMod(r: nat, f: nat)
    requires f > 0
    ensures (r / f) * f + r % f == r
  {
  }

  lemma SubSecondOfRemainder(r: nat, u: TimeUnit)
    ensures (r % Factor(u)) % 1000 == r % 1000
  {
    var f := Factor(u);
    var q, k := r / f, f / 1000;
    assert r == q * f + r % f;
    assert q * f == 1000 * (q * k) by { assert f == 1000 * k; }
    ShiftBySeconds(r % f, q * k);
  }

  lemma ShiftBySeconds(y: int, j: int)
    ensures (y + 1000 * j) % 1000 == y % 1000
  {
  }

  /** The final remainder, printed as tenths with showMilliSeconds, is the
      sub-second part of millis + 999, and its tenths are a single digit. */
  lemma FinalRemainder(millis: nat, biggestUnit: TimeUnit)
    ensures var rest := Rest(millis + 999, Ordinal(biggestUnit), |AllUnits|);
            rest == (millis + 999) % 1000
            && 0 <= rest / 100 <= 9
            && NatToString(rest / 100) == ['0' + (rest / 100) as char]
  {
    RestKeepsSubSecond(millis + 999, Ordinal(biggestUnit), |AllUnits|);
  }

  /** With SECOND as the biggest unit the text is the number of started
      seconds: 0 ms gives "0s", 1 to 1000 ms give "1s", 1001 ms gives "2s". */
  lemma RoundUpToSeconds(millis: nat, maxUnits: int)
    ensures DurationText(millis, SECOND, false, false, maxUnits)
         == NatToString((millis + 999) / 1000) + "s"
  {
    var es := Entries(millis + 999, Ordinal(SECOND), |AllUnits|);
    var e := Entry(SECOND, (millis + 999) / 1000);
    assert es == [e];
    assert FirstShown(es) == 0 && StopAt(es, maxUnits) == 1;
    assert es[0..1] == [e];
    assert GroupsText([e], Rest(millis + 999, Ordinal(SECOND), |AllUnits|), false, false)
        == GroupText(e, Rest(millis + 999, Ordinal(SECOND), |AllUnits|), false, false);
  }

  lemma RoundUpExamples()
    ensures DurationText(0, SECOND, false, false, -1) == "0s"
    ensures DurationText(1, SECOND, false, false, -1) == "1s"
    ensures DurationText(1000, SECOND, false, false, -1) == "1s"
    ensures DurationText(1001, SECOND, false, false, -1) == "2s"
  {
    RoundUpToSeconds(0, -1);
    RoundUpToSeconds(1, -1);
    RoundUpToSeconds(1000, -1);
    RoundUpToSeconds(1001, -1);
  }

  /** With the default biggest unit, YEAR, every duration under a minute
      (after rounding up) prints as whole seconds only: the four zero units
      before SECOND are suppressed. */
  lemma RoundUpFromYears(millis: nat, maxUnits: int)
    requires millis + 999 < FACTOR_MINUTES
    ensures DurationText(millis, YEAR, false, false, maxUnits)
         == NatToString((millis + 999) / 1000) + "s"
  {
    var ms := millis + 999;
    var e := Entry(SECOND, ms / 1000);
    var es := [Entry(YEAR, 0), Entry(DAY, 0), Entry(HOUR, 0), Entry(MINUTE, 0), e];
    EntriesUnderAMinute(ms);
    LeadingZeroUnits(e);
    assert es[4..StopAt(es, maxUnits)] == [e];
    assert GroupsText([e], Rest(ms, 0, 5), false, false) == GroupText(e, Rest(ms, 0, 5), false, false);
  }

  lemma EntriesUnderAMinute(ms: nat)
    requires ms < FACTOR_MINUTES
    ensures Entries(ms, 0, 5)
         == [Entry(YEAR, 0), Entry(DAY, 0), Entry(HOUR, 0), Entry(MINUTE, 0), Entry(SECOND, ms / 1000)]
  {
    FullEntries(ms);
    RestSteps(ms);
    Below(ms, FACTOR_YEARS);
    Below(ms, FACTOR_DAYS);
    Below(ms, FACTOR_HOURS);
    Below(ms, FACTOR_MINUTES);
  }

  lemma Below(x: nat, f: nat)
    requires x < f
    ensures x / f == 0 && x % f == x
  {
  }

  lemma LeadingZeroUnits(e: Entry)
    requires e.unit == SECOND
    ensures FirstShown([Entry(YEAR, 0), Entry(DAY, 0), Entry(HOUR, 0), Entry(MINUTE, 0), e]) == 4
  {
    var es := [Entry(YEAR, 0), Entry(DAY, 0), Entry(HOUR, 0), Entry(MINUTE, 0), e];
    var d, h, m := es[1..], es[2..], es[3..];
    assert m[1..] == [e] && FirstShown([e]) == 0;
    assert FirstShown(m) == 1;
    assert h[1..] == m;
    assert FirstShown(h) == 2;
    assert d[1..] == h;
    assert FirstShown(d) == 3;
    assert es[1..] == d;
  }

  /** formatDuration as called with its defaults: 0 ms is "0s", 1 to 1000 ms
      are "1s", 1001 ms is "2s". */
  lemma RoundUpFromYearsExamples()
    ensures DurationText(0, YEAR, false, false, -1) == "0s"
    ensures DurationText(1, YEAR, false, false, -1) == "1s"
    ensures DurationText(1000, YEAR, false, false, -1) == "1s"
    ensures DurationText(1001, YEAR, false, false, -1) == "2s"
  {
    RoundUpFromYears(0, -1);
    RoundUpFromYears(1, -1);
    RoundUpFromYears(1000, -1);
    RoundUpFromYears(1001, -1);
    OneDigitSeconds(0);
    OneDigitSeconds(1);
    OneDigitSeconds(2);
  }

  lemma OneDigitSeconds(n: nat)
    requires n < 10
    ensures NatToString(n) + "s" == ['0' + n as char, 's']
  {
  }

  /** Only the SECOND group ends without a space. */
  lemma GroupEnd(e: Entry, rest: nat, showMilliSeconds: bool, longName: bool)
    ensures var g := GroupText(e, rest, showMilliSeconds, longName);
            g[|g| - 1] == ' ' <==> e.unit != SECOND
  {
    var name := UnitName(e, longName);
    assert name[|name| - 1] != ' ';
  }

  lemma {:induction false} GroupsEnd(es: seq<Entry>, rest: nat, showMilliSeconds: bool, longName: bool)
    requires es != []
    ensures var t := GroupsText(es, rest, showMilliSeconds, longName);
            |t| > 0 && (t[|t| - 1] == ' ' <==> es[|es| - 1].unit != SECOND)
  {
    var e := es[|es| - 1];
    var g := GroupText(e, rest, showMilliSeconds, longName);
    var t := GroupsText(es, rest, showMilliSeconds, longName);
    GroupEnd(e, rest, showMilliSeconds, longName);
    assert t == GroupsText(es[..|es| - 1], rest, showMilliSeconds, longName) + g;
    assert t[|t| - 1] == g[|g| - 1];
  }

  /** The text is never empty, and it ends in a space exactly when `maxUnits`
      cut it off before the SECOND group. */
  lemma EndsWithSpaceIffCut(millis: nat, biggestUnit: TimeUnit, showMilliSeconds: bool,
                            longName: bool, maxUnits: int)
    ensures var es := Entries(millis + 999, Ordinal(biggestUnit), |AllUnits|);
            var t := DurationText(millis, biggestUnit, showMilliSeconds, longName, maxUnits);
            |t| > 0 && (t[|t| - 1] == ' ' <==> StopAt(es, maxUnits) < |es|)
  {
    var o := Ordinal(biggestUnit);
    var es := Entries(millis + 999, o, |AllUnits|);
    assert es[|es| - 1].unit == SECOND;
    assert forall i :: 0 <= i < |es| - 1 ==> es[i].unit != SECOND by {
      assert forall i :: 0 <= i < |es| ==> es[i].unit == AllUnits[o + i];
    }
    SliceEnds(es, FirstShown(es), StopAt(es, maxUnits), Rest(millis + 999, o, |AllUnits|),
              showMilliSeconds, longName);
  }

  /** Printed groups end in a space exactly when they stop before SECOND. */
  lemma SliceEnds(es: seq<Entry>, first: nat, stop: nat, rest: nat, showMilliSeconds: bool, longName: bool)
    requires first < stop <= |es| && es[|es| - 1].unit == SECOND
    requires forall i :: 0 <= i < |es| - 1 ==> es[i].unit != SECOND
    ensures var t := GroupsText(es[first..stop], rest, showMilliSeconds, longName);
            |t| > 0 && (t[|t| - 1] == ' ' <==> stop < |es|)
  {
    var shown := es[first..stop];
    assert shown[|shown| - 1] == es[stop - 1];
    GroupsEnd(shown, rest, showMilliSeconds, longName);
  }

  /** formatDuration(60_000, maxUnits = 1) keeps the space after "1m". */
  lemma MinuteCutExample()
    ensures DurationText(60_000, YEAR, false, false, 1) == "1m "
  {
    var ms := 60_999;
    assert Rest(ms, 0, 1) == ms && Rest(ms, 0, 2) == ms && Rest(ms, 0, 3) == ms;
    assert Rest(ms, 0, 4) == 999;
    var es := Entries(ms, 0, 5);
    assert es == [Entry(YEAR, 0), Entry(DAY, 0), Entry(HOUR, 0), Entry(MINUTE, 1), Entry(SECOND, 0)];
    assert FirstShown(es) == 3 && StopAt(es, 1) == 4;
    assert es[3..4] == [Entry(MINUTE, 1)];
    assert GroupsText([Entry(MINUTE, 1)], Rest(ms, 0, 5), false, false) == "1m ";
  }

  /** The remainders over the full unit table, one unit at a time. */
  lemma RestSteps(ms: nat)
    ensures Rest(ms, 0, 0) == ms
    ensures Rest(ms, 0, 1) == ms % FACTOR_YEARS
    ensures Rest(ms, 0, 2) == Rest(ms, 0, 1) % FACTOR_DAYS
    ensures Rest(ms, 0, 3) == Rest(ms, 0, 2) % FACTOR_HOURS
    ensures Rest(ms, 0, 4) == Rest(ms, 0, 3) % FACTOR_MINUTES
    ensures Rest(ms, 0, 5) == Rest(ms, 0, 4) % FACTOR_SECONDS
  {
  }

  lemma GroupsText3(a: Entry, b: Entry, c: Entry, rest: nat, showMilliSeconds: bool, longName: bool)
    ensures GroupsText([a, b, c], rest, showMilliSeconds, longName)
         == GroupText(a, rest, showMilliSeconds, longName) + GroupText(b, rest, showMilliSeconds, longName)
            + GroupText(c, rest, showMilliSeconds, longName)
  {
    assert [a, b, c][..2] == [a, b];
    assert [a, b][..1] == [a];
    assert GroupsText([a], rest, showMilliSeconds, longName) == GroupText(a, rest, showMilliSeconds, longName);
  }

  /** The text of a duration whose first two units are zero and whose last
      three are printed, built from the three groups. */
  lemma ThreeGroupText(millis: nat, showMilliSeconds: bool, longName: bool, h: nat, m: nat, sec: nat)
    requires h > 0
    requires Entries(millis + 999, 0, 5)
          == [Entry(YEAR, 0), Entry(DAY, 0), Entry(HOUR, h), Entry(MINUTE, m), Entry(SECOND, sec)]
    ensures DurationText(millis, YEAR, showMilliSeconds, longName, -1)
         == GroupText(Entry(HOUR, h), Rest(millis + 999, 0, 5), showMilliSeconds, longName)
            + GroupText(Entry(MINUTE, m), Rest(millis + 999, 0, 5), showMilliSeconds, longName)
            + GroupText(Entry(SECOND, sec), Rest(millis + 999, 0, 5), showMilliSeconds, longName)
  {
    var es := Entries(millis + 999, 0, 5);
    assert FirstShown(es) == 2 by {
      assert !Shown(es[0]) && !Shown(es[1]) && Shown(es[2]);
    }
    assert es[2..5] == [es[2], es[3], es[4]];
    GroupsText3(es[2], es[3], es[4], Rest(millis + 999, 0, 5), showMilliSeconds, longName);
  }

  /** The five entries of a full decomposition, written out. */
  lemma FullEntries(ms: nat)
    ensures Entries(ms, 0, 5)
         == [Entry(YEAR, ms / FACTOR_YEARS), Entry(DAY, Rest(ms, 0, 1) / FACTOR_DAYS),
             Entry(HOUR, Rest(ms, 0, 2) / FACTOR_HOURS), Entry(MINUTE, Rest(ms, 0, 3) / FACTOR_MINUTES),
             Entry(SECOND, Rest(ms, 0, 4) / FACTOR_SECONDS)]
  {
    assert Entries(ms, 0, 1) == [Entry(YEAR, ms / FACTOR_YEARS)];
    assert Entries(ms, 0, 2) == Entries(ms, 0, 1) + [Entry(DAY, Rest(ms, 0, 1) / FACTOR_DAYS)];
    assert Entries(ms, 0, 3) == Entries(ms, 0, 2) + [Entry(HOUR, Rest(ms, 0, 2) / FACTOR_HOURS)];
    assert Entries(ms, 0, 4) == Entries(ms, 0, 3) + [Entry(MINUTE, Rest(ms, 0, 3) / FACTOR_MINUTES)];
  }

  lemma EntriesOf7384999()
    ensures Entries(7_384_999, 0, 5)
         == [Entry(YEAR, 0), Entry(DAY, 0), Entry(HOUR, 2), Entry(MINUTE, 3), Entry(SECOND, 4)]
  {
    var ms := 7_384_999;
    FullEntries(ms);
    RestSteps(ms);
    assert Rest(ms, 0, 1) == ms && Rest(ms, 0, 2) == ms;
    assert Rest(ms, 0, 3) == 184_999;
    assert Rest(ms, 0, 4) == 4_999;
  }

  lemma EntriesOf3661999()
    ensures Entries(3_661_999, 0, 5)
         == [Entry(YEAR, 0), Entry(DAY, 0), Entry(HOUR, 1), Entry(MINUTE, 1), Entry(SECOND, 1)]
  {
    var ms := 3_661_999;
    FullEntries(ms);
    RestSteps(ms);
    assert Rest(ms, 0, 1) == ms && Rest(ms, 0, 2) == ms;
    assert Rest(ms, 0, 3) == 61_999;
    assert Rest(ms, 0, 4) == 1_999;
  }

  /** Leading zero units are suppressed: 7_384_000 ms is "2h 3m 4s". */
  lemma ShortFormExample()
    ensures DurationText(7_384_000, YEAR, false, false, -1) == "2h 3m 4s"
  {
    EntriesOf7384999();
    ThreeGroupText(7_384_000, false, false, 2, 3, 4);
    var r := Rest(7_384_999, 0, 5);
    assert GroupText(Entry(HOUR, 2), r, false, false) == "2h ";
    assert GroupText(Entry(MINUTE, 3), r, false, false) == "3m ";
    assert GroupText(Entry(SECOND, 4), r, false, false) == "4s";
  }

  /** Long names, each value 1 and so singular: "1 Hour 1 Minute 1 Second". */
  lemma LongFormExample()
    ensures DurationText(3_661_000, YEAR, false, true, -1) == "1 Hour 1 Minute 1 Second"
  {
    EntriesOf3661999();
    ThreeGroupText(3_661_000, false, true, 1, 1, 1);
    SingularGroups(Rest(3_661_999, 0, 5));
    LongFormConcat("1 Hour ", "1 Minute ", "1 Second");
  }

  lemma LongFormConcat(a: string, b: string, c: string)
    requires a == "1 Hour " && b == "1 Minute " && c == "1 Second"
    ensures a + b + c == "1 Hour 1 Minute 1 Second"
  {
  }

  lemma SingularGroups(r: nat)
    ensures GroupText(Entry(SECOND, 0), r, false, true) == "0 Second"
    ensures GroupText(Entry(HOUR, 1), r, false, true) == "1 Hour "
    ensures GroupText(Entry(MINUTE, 1), r, false, true) == "1 Minute "
    ensures GroupText(Entry(SECOND, 1), r, false, true) == "1 Second"
  {
    assert UnitName(Entry(HOUR, 1), true) == " Hour";
    assert UnitName(Entry(MINUTE, 1), true) == " Minute";
    assert UnitName(Entry(SECOND, 1), true) == " Second";
  }
}
