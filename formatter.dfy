/** formatDuration: milliseconds to text such as "2h 3m 4s" or "1 Hour 1 Second". */
module Formatter {
  import opened Units
  import opened Numbers

  /** One entry of the insertion-ordered unit-to-value map the formatter fills. */
  datatype Entry = Entry(unit: TimeUnit, value: nat)

  /** The entries for the units with ordinals `lo` to `hi - 1`, made by dividing
      `ms` by each unit's factor in turn and keeping the remainder for the next. */
  function Entries(ms: nat, lo: nat, hi: nat): (es: seq<Entry>)
    requires hi <= |AllUnits|
    ensures |es| == if hi <= lo then 0 else hi - lo
    ensures forall i :: 0 <= i < |es| ==> es[i].unit == AllUnits[lo + i]
  {
    if hi <= lo then []
    else Entries(ms, lo, hi - 1) + [Entry(AllUnits[hi - 1], Rest(ms, lo, hi - 1) / Factor(AllUnits[hi - 1]))]
  }

  /** What is left of `ms` after the decomposition over ordinals `lo` to `hi - 1`. */
  function Rest(ms: nat, lo: nat, hi: nat): (r: nat)
    requires hi <= |AllUnits|
    ensures lo < hi ==> r < Factor(AllUnits[hi - 1])
  {
    if hi <= lo then ms else Rest(ms, lo, hi - 1) % Factor(AllUnits[hi - 1])
  }

  /** The milliseconds the entries stand for. */
  function Sum(es: seq<Entry>): int
  {
    if es == [] then 0 else Sum(es[..|es| - 1]) + es[|es| - 1].value * Factor(es[|es| - 1].unit)
  }

  predicate Shown(e: Entry) { e.value > 0 || e.unit == SECOND }

  /** Index of the first entry that is printed: the first non-zero one, or SECOND. */
  function FirstShown(es: seq<Entry>): (k: nat)
    ensures k <= |es|
    ensures forall j :: 0 <= j < k ==> !Shown(es[j])
    ensures k < |es| ==> Shown(es[k])
  {
    if es == [] then 0
    else if Shown(es[0]) then 0
    else 1 + FirstShown(es[1..])
  }

  /** Index after the last printed entry: `maxUnits` groups at most when it is
      positive, and no limit for zero and every negative value. */
  function StopAt(es: seq<Entry>, maxUnits: int): (k: nat)
    ensures FirstShown(es) <= k <= |es|
    ensures FirstShown(es) < |es| ==> FirstShown(es) < k
    ensures maxUnits >= 1 ==> k - FirstShown(es) <= maxUnits
    ensures k < |es| <==> maxUnits >= 1 && FirstShown(es) + maxUnits < |es|
  {
    var first := FirstShown(es);
    if maxUnits >= 1 && first + maxUnits < |es| then first + maxUnits else |es|
  }

  /** The unit's name as printed after the value. */
  function UnitName(e: Entry, longName: bool): string
  {
    if longName then " " + LongName(e.unit) + (if e.value > 1 then "s" else "")
    else ShortName(e.unit)
  }

  /** One printed group; `rest` is the remainder after SECOND, printed in tenths. */
  function GroupText(e: Entry, rest: nat, showMilliSeconds: bool, longName: bool): (g: string)
    ensures |g| > 0
  {
    NatToString(e.value) +
    if e.unit == SECOND then
      (if showMilliSeconds then "." + NatToString(rest / 100) else "") + UnitName(e, longName)
    else
      UnitName(e, longName) + " "
  }

  function GroupsText(es: seq<Entry>, rest: nat, showMilliSeconds: bool, longName: bool): string
  {
    if es == [] then ""
    else GroupsText(es[..|es| - 1], rest, showMilliSeconds, longName)
         + GroupText(es[|es| - 1], rest, showMilliSeconds, longName)
  }

  /** The text formatDuration produces, as a function of its arguments. */
  function DurationText(millis: nat, biggestUnit: TimeUnit, showMilliSeconds: bool,
                        longName: bool, maxUnits: int): string
  {
    var ms := millis + 999;
    var es := Entries(ms, Ordinal(biggestUnit), |AllUnits|);
    GroupsText(es[FirstShown(es)..StopAt(es, maxUnits)], Rest(ms, Ordinal(biggestUnit), |AllUnits|),
               showMilliSeconds, longName)
  }

  /** formatDuration: the first loop fills the unit-to-value map, the second
      builds the text. */
  method FormatDuration(millis: int, biggestUnit: TimeUnit, showMilliSeconds: bool,
                        longName: bool, maxUnits: int) returns (s: string)
    requires 0 <= millis && millis + 999 <= LONG_MAX
    requires (millis + 999) / Factor(biggestUnit) <= INT_MAX
    ensures s == DurationText(millis, biggestUnit, showMilliSeconds, longName, maxUnits)
  {
    var entries, milliseconds := FillValues(millis + 999, biggestUnit);
    s := BuildText(entries, milliseconds, showMilliSeconds, longName, maxUnits);
  }

  /** The first loop of formatDuration: for each unit from `biggestUnit` down,
      record `milliseconds / factor` (as `Int`) and keep the remainder. */
  method FillValues(ms: nat, biggestUnit: TimeUnit) returns (entries: seq<Entry>, milliseconds: nat)
    requires ms / Factor(biggestUnit) <= INT_MAX
    ensures entries == Entries(ms, Ordinal(biggestUnit), |AllUnits|)
    ensures milliseconds == Rest(ms, Ordinal(biggestUnit), |AllUnits|)
  {
    milliseconds := ms;
    entries := [];
    var idx := 0;
    while idx < |AllUnits|
      invariant 0 <= idx <= |AllUnits|
      invariant entries == Entries(ms, Ordinal(biggestUnit), idx)
      invariant milliseconds == Rest(ms, Ordinal(biggestUnit), idx)
    {
      var unit := AllUnits[idx];
      Units.OrdinalOfIndex(idx);
      FillStep(ms, Ordinal(biggestUnit), idx);
      if Ordinal(unit) >= Ordinal(biggestUnit) {
        var factor := Factor(unit);
        // `.toInt()` keeps the quotient: the first one is bounded by the
        // precondition, every later one by the previous unit's factor.
        assert milliseconds / factor <= INT_MAX by {
          if idx > Ordinal(biggestUnit) { QuotientBound(milliseconds, factor); }
        }
        var value := milliseconds / factor;
        entries := entries + [Entry(unit, value)];
        milliseconds := milliseconds % factor;
      }
      idx := idx + 1;
    }
  }

  /** One more unit of the decomposition: an entry and a remainder once the
      biggest unit is reached, nothing before. */
  lemma FillStep(ms: nat, lo: nat, idx: nat)
    requires idx < |AllUnits|
    ensures Entries(ms, lo, idx + 1)
         == if idx >= lo then Entries(ms, lo, idx) + [Entry(AllUnits[idx], Rest(ms, lo, idx) / Factor(AllUnits[idx]))]
            else Entries(ms, lo, idx)
    ensures Rest(ms, lo, idx + 1) == if idx >= lo then Rest(ms, lo, idx) % Factor(AllUnits[idx]) else Rest(ms, lo, idx)
  {
  }

  lemma QuotientBound(a: nat, f: nat)
    requires f >= FACTOR_SECONDS && a < FACTOR_YEARS
    ensures a / f <= INT_MAX
  {
    assert (a / f) * f <= a;
    assert (a / f) * FACTOR_SECONDS <= (a / f) * f;
  }

  /** The second loop of formatDuration: print the entries from the first
      shown one on, and stop once `count == maxUnits` (never for -1). */
  method BuildText(entries: seq<Entry>, milliseconds: nat, showMilliSeconds: bool,
                   longName: bool, maxUnits: int) returns (s: string)
    ensures s == GroupsText(entries[FirstShown(entries)..StopAt(entries, maxUnits)],
                            milliseconds, showMilliSeconds, longName)
  {
    ghost var first := FirstShown(entries);
    ghost var stop := StopAt(entries, maxUnits);
    ghost var printed: seq<Entry> := [];
    var builder := "";
    var count := 0;
    var i := 0;
    while i < |entries|
      invariant i <= stop && (i < stop || i == |entries|)
      invariant i <= first ==> printed == [] && count == 0
      invariant i > first ==> printed == entries[first..i] && count == i - first && |builder| > 0
      invariant builder == GroupsText(printed, milliseconds, showMilliSeconds, longName)
    {
      var unit := entries[i].unit;
      var value := entries[i].value;
      if value > 0 || |builder| > 0 || unit == SECOND {
        assert i == first || printed != [];
        SliceSnoc(entries, first, i);
        builder := AppendGroup(builder, entries[i], milliseconds, showMilliSeconds, longName);
        GroupsTextSnoc(printed, entries[i], milliseconds, showMilliSeconds, longName);
        printed := printed + [entries[i]];
        count := count + 1;
        if maxUnits != -1 {
          if count == maxUnits {
            assert i + 1 == stop;
            break;
          }
        }
      }
      i := i + 1;
    }
    assert printed == entries[first..stop];
    s := builder;
  }

  /** Appending one group to the builder: the value, then for SECOND the
      optional tenths and the name, for the other units the name and a space. */
  method AppendGroup(builder: string, e: Entry, milliseconds: nat, showMilliSeconds: bool,
                     longName: bool) returns (b: string)
    ensures b == builder + GroupText(e, milliseconds, showMilliSeconds, longName)
  {
    var unit := e.unit;
    var value := e.value;
    b := builder + NatToString(value);
    var name := UnitName(e, longName);
    if unit == SECOND {
      if showMilliSeconds {
        var formatMillis := milliseconds / 100;
        b := b + ".";
        b := b + NatToString(formatMillis);
      }
      b := b + name;
    } else {
      b := b + (name + " ");
    }
  }

  lemma SliceSnoc<T>(s: seq<T>, lo: nat, i: nat)
    requires lo <= i < |s|
    ensures s[lo..i + 1] == s[lo..i] + [s[i]]
  {
  }

  lemma GroupsTextSnoc(es: seq<Entry>, e: Entry, rest: nat, showMilliSeconds: bool, longName: bool)
    ensures GroupsText(es + [e], rest, showMilliSeconds, longName)
         == GroupsText(es, rest, showMilliSeconds, longName) + GroupText(e, rest, showMilliSeconds, longName)
  {
    assert (es + [e])[..|es|] == es;
  }
}
