/** What the duration pattern accepts: exactly the runs of component texts
    in unit order, each `digits ' '? letter word ' '?`. For an accepted text
    some such run has exactly the captures as its digits. */
module PatternSoundness {
  import opened Numbers
  import opened Text
  import opened DurationPattern
  import opened PatternProperties

  /** One component as the matcher read it: the piece, then the optional
      space that `(?:\w* ?)?` may take after the word. */
  datatype Segment = Segment(p: Piece, trail: string)

  /** Well-formed segments for components `lo` on, in the pattern's order. */
  predicate Segments(ss: seq<Segment>, lo: nat)
  {
    ss == [] ||
    (PieceOk(ss[0].p) && (ss[0].trail == "" || ss[0].trail == " ") &&
     lo <= ss[0].p.k && Segments(ss[1..], ss[0].p.k + 1))
  }

  /** The segments written one after the other. */
  function Joined(ss: seq<Segment>, lo: nat): string
    requires Segments(ss, lo)
  {
    if ss == [] then "" else Written(ss[0].p) + ss[0].trail + Joined(ss[1..], ss[0].p.k + 1)
  }

  /** The captures the segments stand for: component `k`'s digits if a
      segment has unit `k`, absent otherwise. */
  function SegmentCaps(ss: seq<Segment>, lo: nat): (caps: Captures)
    requires lo <= 5 && Segments(ss, lo)
    ensures WellFormed(caps, lo)
    decreases 5 - lo
  {
    if lo == 5 then []
    else if ss != [] && ss[0].p.k == lo then [Some(ss[0].p.digits)] + SegmentCaps(ss[1..], lo + 1)
    else [None] + SegmentCaps(ss, lo + 1)
  }

  /** Every text the pattern accepts splits into segments that give back its
      captures. */
  lemma MatchSound(t: string)
    requires Match(t).Some?
    ensures exists ss :: Segments(ss, 0) && Joined(ss, 0) == t && SegmentCaps(ss, 0) == Match(t).value
  {
    var ss := ComponentsSound(t, 0);
  }

  lemma Assoc3(a: string, b: string, c: string)
    ensures a + b + c == a + (b + c)
  {
  }

  /** A well-formed segment in front of later ones. */
  lemma SegmentsFront(head: Segment, rest: seq<Segment>, k: nat)
    requires PieceOk(head.p) && (head.trail == "" || head.trail == " ") && k <= head.p.k
    requires Segments(rest, head.p.k + 1)
    ensures Segments([head] + rest, k)
  {
    var ss := [head] + rest;
    assert ss[0] == head && ss[1..] == rest;
  }

  /** A segment in front of others, written right-nested. */
  lemma JoinedFront(head: Segment, rest: seq<Segment>, k: nat)
    requires k < 5 && head.p.k == k && Segments([head] + rest, k)
    ensures Joined([head] + rest, k)
         == head.p.digits + (head.p.sep + ([LETTERS[head.p.k]] + (head.p.word + head.trail + Joined(rest, head.p.k + 1))))
    ensures SegmentCaps([head] + rest, k) == [Some(head.p.digits)] + SegmentCaps(rest, k + 1)
  {
    var ss := [head] + rest;
    assert ss[0] == head && ss[1..] == rest;
    var p := head.p;
    assert Joined(ss, k) == Written(p) + head.trail + Joined(rest, p.k + 1);
    Nest(p.digits, p.sep, [LETTERS[p.k]], p.word, head.trail, Joined(rest, p.k + 1));
  }

  lemma Nest(a: string, b: string, c: string, d: string, e: string, f: string)
    ensures a + b + c + d + e + f == a + (b + (c + (d + e + f)))
  {
    Assoc3(a + b + c + d, e, f);
    Assoc3(a + b + c, d, e + f);
    Assoc3(d, e, f);
    Assoc3(a + b, c, d + (e + f));
    Assoc3(a, b, c + (d + (e + f)));
  }

  /** The segments behind a successful `Components(t, k)`. */
  lemma ComponentsSound(t: string, k: nat) returns (ss: seq<Segment>)
    requires k <= 5 && Components(t, k).Some?
    ensures Segments(ss, k) && Joined(ss, k) == t && SegmentCaps(ss, k) == Components(t, k).value
    decreases 5 - k, 7, 0
  {
    if k == 5 {
      ss := [];
    } else if Present(t, k).Some? {
      ss := PresentSound(t, k);
    } else {
      ss := ComponentsSound(t, k + 1);
    }
  }

  lemma PresentSound(t: string, k: nat) returns (ss: seq<Segment>)
    requires k < 5 && Present(t, k).Some?
    ensures Segments(ss, k) && ss != [] && ss[0].p.k == k
    ensures Joined(ss, k) == t && SegmentCaps(ss, k) == Present(t, k).value
    decreases 5 - k, 6, 0
  {
    ss := TryDigitsSound(t, k, DigitRun(t));
  }

  lemma TryDigitsSound(t: string, k: nat, n: nat) returns (ss: seq<Segment>)
    requires k < 5 && n <= DigitRun(t) && TryDigits(t, k, n).Some?
    ensures Segments(ss, k) && ss != [] && ss[0].p.k == k
    ensures Joined(ss, k) == t && SegmentCaps(ss, k) == TryDigits(t, k, n).value
    decreases 5 - k, 5, n
  {
    if AfterDigits(t[n..], k).Some? {
      ss := DigitsTaken(t, k, n);
    } else {
      assert TryDigits(t, k, n) == TryDigits(t, k, n - 1);
      ss := TryDigitsSound(t, k, n - 1);
    }
  }

  /** `\d+` took the first `n` characters and the rest of the pattern matched. */
  lemma DigitsTaken(t: string, k: nat, n: nat) returns (ss: seq<Segment>)
    requires k < 5 && 0 < n <= DigitRun(t) && AfterDigits(t[n..], k).Some?
    ensures Segments(ss, k) && ss != [] && ss[0].p.k == k
    ensures Joined(ss, k) == t && SegmentCaps(ss, k) == TryDigits(t, k, n).value
    decreases 5 - k, 4, 1
  {
    DigitsStep(t, k, n);
    var sep, word, trail, rest := AfterDigitsSound(t[n..], k);
    DigitsPrefix(t, n);
    ss := Assemble(t[..n], sep, word, trail, rest, k);
    assert t == t[..n] + t[n..];
  }

  lemma DigitsStep(t: string, k: nat, n: nat)
    requires k < 5 && 0 < n <= DigitRun(t) && AfterDigits(t[n..], k).Some?
    ensures TryDigits(t, k, n).Some?
    ensures TryDigits(t, k, n).value == [Some(t[..n])] + AfterDigits(t[n..], k).value
  {
  }

  lemma DigitsPrefix(t: string, n: nat)
    requires n <= DigitRun(t)
    ensures AllDigits(t[..n])
  {
    assert forall i :: 0 <= i < n ==> t[..n][i] == t[i];
  }

  /** A segment built from its parts, in front of later ones. */
  lemma Assemble(digits: string, sep: string, word: string, trail: string, rest: seq<Segment>, k: nat)
    returns (ss: seq<Segment>)
    requires k < 5 && digits != [] && AllDigits(digits)
    requires (sep == "" || sep == " ") && AllWord(word) && (trail == "" || trail == " ")
    requires Segments(rest, k + 1)
    ensures Segments(ss, k) && ss != [] && ss[0].p.k == k
    ensures Joined(ss, k) == digits + (sep + ([LETTERS[k]] + (word + trail + Joined(rest, k + 1))))
    ensures SegmentCaps(ss, k) == [Some(digits)] + SegmentCaps(rest, k + 1)
  {
    var head := Segment(Piece(digits, sep, k, word), trail);
    SegmentsFront(head, rest, k);
    ss := [head] + rest;
    JoinedFront(head, rest, k);
  }

  lemma AfterDigitsSound(u: string, k: nat) returns (sep: string, word: string, trail: string, ss: seq<Segment>)
    requires k < 5 && AfterDigits(u, k).Some?
    ensures (sep == "" || sep == " ") && AllWord(word) && (trail == "" || trail == " ")
    ensures Segments(ss, k + 1)
    ensures u == sep + ([LETTERS[k]] + (word + trail + Joined(ss, k + 1)))
    ensures AfterDigits(u, k).value == SegmentCaps(ss, k + 1)
    decreases 5 - k, 4, 0
  {
    if u != [] && u[0] == ' ' && UnitLetter(u[1..], k).Some? {
      assert AfterDigits(u, k) == UnitLetter(u[1..], k);
      word, trail, ss := UnitLetterSound(u[1..], k);
      sep := " ";
      FrontChar(u, ' ', [LETTERS[k]] + (word + trail + Joined(ss, k + 1)));
    } else {
      assert AfterDigits(u, k) == UnitLetter(u, k);
      word, trail, ss := UnitLetterSound(u, k);
      sep := "";
      assert sep + u == u;
    }
  }

  lemma UnitLetterSound(u: string, k: nat) returns (word: string, trail: string, ss: seq<Segment>)
    requires k < 5 && UnitLetter(u, k).Some?
    ensures AllWord(word) && (trail == "" || trail == " ")
    ensures Segments(ss, k + 1)
    ensures u == [LETTERS[k]] + (word + trail + Joined(ss, k + 1))
    ensures UnitLetter(u, k).value == SegmentCaps(ss, k + 1)
    decreases 5 - k, 3, 0
  {
    LetterStep(u, k);
    word, trail, ss := SuffixSound(u[1..], k);
    FrontChar(u, LETTERS[k], word + trail + Joined(ss, k + 1));
  }

  lemma LetterStep(u: string, k: nat)
    requires k < 5 && UnitLetter(u, k).Some?
    ensures u != [] && u[0] == LETTERS[k] && UnitLetter(u, k) == Suffix(u[1..], k)
  {
  }

  lemma FrontChar(u: string, c: char, rest: string)
    requires u != [] && u[0] == c && u[1..] == rest
    ensures u == [c] + rest
  {
    assert u == [u[0]] + u[1..];
  }

  lemma SuffixSound(v: string, k: nat) returns (word: string, trail: string, ss: seq<Segment>)
    requires k < 5 && Suffix(v, k).Some?
    ensures AllWord(word) && (trail == "" || trail == " ")
    ensures Segments(ss, k + 1)
    ensures v == word + trail + Joined(ss, k + 1)
    ensures Suffix(v, k).value == SegmentCaps(ss, k + 1)
    decreases 5 - k, 2, 0
  {
    if TryWord(v, k, WordRun(v)).Some? {
      word, trail, ss := TryWordSound(v, k, WordRun(v));
    } else {
      ss := ComponentsSound(v, k + 1);
      word, trail := "", "";
      assert word + trail + v == v;
    }
  }

  lemma TryWordSound(v: string, k: nat, n: nat) returns (word: string, trail: string, ss: seq<Segment>)
    requires k < 5 && n <= WordRun(v) && TryWord(v, k, n).Some?
    ensures AllWord(word) && (trail == "" || trail == " ")
    ensures Segments(ss, k + 1)
    ensures v == word + trail + Joined(ss, k + 1)
    ensures TryWord(v, k, n).value == SegmentCaps(ss, k + 1)
    decreases 5 - k, 1, n
  {
    var w := v[n..];
    if w != [] && w[0] == ' ' && Components(w[1..], k + 1).Some? {
      assert TryWord(v, k, n) == Components(w[1..], k + 1);
      word, trail, ss := WordThenSpace(v, k, n);
    } else if Components(w, k + 1).Some? {
      assert TryWord(v, k, n) == Components(w, k + 1);
      word, trail, ss := WordThenRest(v, k, n);
    } else {
      assert TryWord(v, k, n) == TryWord(v, k, n - 1);
      word, trail, ss := TryWordSound(v, k, n - 1);
    }
  }

  /** `\w*` took `n` characters, ` ?` a space, and the later components the rest. */
  lemma WordThenSpace(v: string, k: nat, n: nat) returns (word: string, trail: string, ss: seq<Segment>)
    requires k < 5 && n <= WordRun(v) && n < |v| && v[n] == ' ' && Components(v[n + 1..], k + 1).Some?
    ensures AllWord(word) && trail == " "
    ensures Segments(ss, k + 1)
    ensures v == word + trail + Joined(ss, k + 1)
    ensures Components(v[n + 1..], k + 1).value == SegmentCaps(ss, k + 1)
    decreases 5 - k, 0, 0
  {
    ss := ComponentsSound(v[n + 1..], k + 1);
    word, trail := v[..n], " ";
    assert AllWord(word);
    SpaceBetween(v, n, Joined(ss, k + 1));
  }

  lemma SpaceBetween(v: string, n: nat, rest: string)
    requires n < |v| && v[n] == ' ' && v[n + 1..] == rest
    ensures v == v[..n] + " " + rest
  {
    assert v == v[..n] + ([' '] + v[n + 1..]);
    Assoc3(v[..n], " ", rest);
  }

  /** `\w*` took `n` characters and the later components the rest. */
  lemma WordThenRest(v: string, k: nat, n: nat) returns (word: string, trail: string, ss: seq<Segment>)
    requires k < 5 && n <= WordRun(v) && Components(v[n..], k + 1).Some?
    ensures AllWord(word) && trail == ""
    ensures Segments(ss, k + 1)
    ensures v == word + trail + Joined(ss, k + 1)
    ensures Components(v[n..], k + 1).value == SegmentCaps(ss, k + 1)
    decreases 5 - k, 0, 0
  {
    ss := ComponentsSound(v[n..], k + 1);
    word, trail := v[..n], "";
    assert AllWord(word);
    NothingBetween(v, n, Joined(ss, k + 1));
  }

  lemma NothingBetween(v: string, n: nat, rest: string)
    requires n <= |v| && v[n..] == rest
    ensures v == v[..n] + "" + rest
  {
    assert v[..n] + "" == v[..n];
    assert v == v[..n] + v[n..];
  }

  /** The converse: every run of segments in unit order is accepted, glued
      or spaced. Only acceptance carries over: with nothing between two
      components, the greedy `\w*` may swallow the later one, so the captures
      then follow Java's order and not the segments (see `GluedCaptures`). */
  lemma MatchComplete(ss: seq<Segment>)
    requires Segments(ss, 0)
    ensures Match(Joined(ss, 0)).Some?
  {
    ComponentsComplete(ss, 0);
  }

  lemma {:induction false} ComponentsComplete(ss: seq<Segment>, lo: nat)
    requires lo <= 5 && Segments(ss, lo)
    ensures Components(Joined(ss, lo), lo).Some?
    decreases |ss|
  {
    if ss == [] {
      EmptyMatches(lo);
    } else {
      var p, trail, rest := ss[0].p, ss[0].trail, ss[1..];
      var k := p.k;
      var j := Joined(rest, k + 1);
      ComponentsComplete(rest, k + 1);
      SuffixComplete(p.word, trail, j, k);
      PresentWhenSuffix(p.digits, p.sep, p.word + trail + j, k);
      Regroup(p.digits + p.sep + [LETTERS[k]], p.word, trail, j);
      assert Joined(ss, lo) == p.digits + p.sep + [LETTERS[k]] + (p.word + trail + j);
      ComponentsUp(Joined(ss, lo), lo, k);
    }
  }

  /** A component's word and optional space before text the later components
      accept: the suffix group succeeds. */
  lemma SuffixComplete(word: string, trail: string, j: string, k: nat)
    requires k < 5 && AllWord(word) && (trail == "" || trail == " ")
    requires Components(j, k + 1).Some?
    ensures Suffix(word + trail + j, k).Some?
  {
    var v := word + trail + j;
    Regroup([], word, trail, j);
    assert v == word + (trail + j);
    assert v[..|word|] == word;
    WordRunCovers(v, |word|);
    assert v[|word|..] == trail + j;
    if trail == " " {
      assert (trail + j)[1..] == j;
    } else {
      assert trail + j == j;
    }
    assert TryWord(v, k, |word|).Some?;
    TryWordGrows(v, k, |word|, WordRun(v));
  }

  /** A run of word characters at the front lies within the word run. */
  lemma {:induction false} WordRunCovers(v: string, n: nat)
    requires n <= |v| && AllWord(v[..n])
    ensures n <= WordRun(v)
    decreases n
  {
    if n > 0 {
      assert IsWordChar(v[..n][0]);
      var u := v[1..];
      assert u[..n - 1] == v[..n][1..];
      WordRunCovers(u, n - 1);
    }
  }

  /** Backtracking over `\w*` finds a match if any shorter word run gives one. */
  lemma {:induction false} TryWordGrows(v: string, k: nat, m: nat, n: nat)
    requires k < 5 && m <= n <= WordRun(v)
    requires TryWord(v, k, m).Some?
    ensures TryWord(v, k, n).Some?
    decreases n
  {
    if m < n {
      TryWordGrows(v, k, m, n - 1);
    }
  }

  /** If components `k` on accept the text, so do components `lo` on, whatever
      `lo <= k` is: the earlier ones may all be absent. */
  lemma {:induction false} ComponentsUp(t: string, lo: nat, k: nat)
    requires lo <= k < 5 && Present(t, k).Some?
    ensures Components(t, lo).Some?
    decreases k - lo
  {
    if lo < k {
      ComponentsUp(t, lo + 1, k);
    }
  }

  /** Glued components: "1d2h" is accepted, but the `\w*` after `d` takes
      "2h", so only the days are captured. */
  lemma GluedCaptures()
    ensures Match("1d2h") == Some([None, Some("1"), None, None, None])
  {
    GluedParts();
    ComponentsLast("1", "", "2h", 0, 1);
    GluedText();
    GluedNones();
  }

  lemma GluedParts()
    ensures AllDigits("1") && AllWord("2h")
  {
    assert IsWordChar("2h"[0]) && IsWordChar("2h"[1]);
  }

  lemma GluedText()
    ensures "1" + "" + [LETTERS[1]] + "2h" == "1d2h"
  {
  }

  lemma GluedNones()
    ensures Nones(1 - 0) + [Some("1")] + Nones(4 - 1) == [None, Some("1"), None, None, None]
  {
    assert Nones(1) == [None];
    assert Nones(2) == [None, None];
    assert Nones(3) == [None, None, None];
  }
}
