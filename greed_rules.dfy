/**
 * The scoring rules of the Greed dice game in greed/game.rb. Both `score`
 * and `get_nonscoring_num` sort the die values and scan them left to right:
 * three equal values in a row are taken as a triple, anything else as a
 * single die. They differ only in what a triple and a single are worth, so
 * one scan `Scan` over a `Tally` describes both, and `FaceTotal` gives the
 * same number per face, from the counts alone.
 */
module GreedRules {

  /** What a scan adds up: the points of `score`, or the non-scoring dice of `get_nonscoring_num`. */
  datatype Tally = Points | Nonscoring

  /** The worth of three equal values `face` (a triple of 1s is 1000 points, any other triple 100 times its face). */
  function TripleValue(t: Tally, face: int): int {
    match t
    case Points => if face == 1 then 1000 else face * 100
    case Nonscoring => 0
  }

  /** The worth of one die outside a triple (a single 1 is 100 points, a single 5 is 50). */
  function SingleValue(t: Tally, face: int): int {
    match t
    case Points => if face == 1 then 100 else if face == 5 then 50 else 0
    case Nonscoring => if face != 1 && face != 5 then 1 else 0
  }

  /**
   * The scan of the `while i < v.length` loops, from the front of `v`. A
   * triple needs `v[i+2]` to exist: past the end Ruby reads `nil`, which
   * equals no value.
   */
  function Scan(t: Tally, v: seq<int>): int
    decreases |v|
  {
    if |v| == 0 then 0
    else if |v| >= 3 && v[0] == v[1] && v[1] == v[2] then TripleValue(t, v[0]) + Scan(t, v[3..])
    else SingleValue(t, v[0]) + Scan(t, v[1..])
  }

  /** The worth of `count` dice showing `face`: as many triples as fit, the rest as singles. */
  function RunValue(t: Tally, face: int, count: nat): int
    decreases count
  {
    if count == 0 then 0
    else if count >= 3 then TripleValue(t, face) + RunValue(t, face, count - 3)
    else SingleValue(t, face) + RunValue(t, face, count - 1)
  }

  /** The run value in closed form: `count / 3` triples and `count % 3` singles. */
  lemma RunValueClosedForm(t: Tally, face: int, count: nat)
    ensures RunValue(t, face, count) == (count / 3) * TripleValue(t, face) + (count % 3) * SingleValue(t, face)
  {
    RunValueOfParts(t, face, count / 3, count % 3);
  }

  /** `3 * triples + singles` dice, with fewer than three singles, are worth that many triples and singles. */
  lemma {:induction false} RunValueOfParts(t: Tally, face: int, triples: nat, singles: nat)
    requires singles < 3
    ensures RunValue(t, face, 3 * triples + singles) == triples * TripleValue(t, face) + singles * SingleValue(t, face)
    decreases triples
  {
    var triple, single := TripleValue(t, face), SingleValue(t, face);
    if triples > 0 {
      RunValueOfParts(t, face, triples - 1, singles);
      assert 3 * triples + singles - 3 == 3 * (triples - 1) + singles;
      assert (triples - 1) * triple + triple == triples * triple;
    } else if singles == 2 {
      assert RunValue(t, face, 1) == single;
    }
  }

  /** The reference total: the run values of faces `face` to 6, from the counts in `m` only. */
  function FaceTotal(t: Tally, m: multiset<int>, face: int): int
    decreases 7 - face
  {
    if face > 6 then 0 else RunValue(t, face, m[face]) + FaceTotal(t, m, face + 1)
  }

  ghost predicate Sorted(s: seq<int>) {
    forall i, j :: 0 <= i < j < |s| ==> s[i] <= s[j]
  }

  /** Every value is a face of a six-sided die. */
  ghost predicate AllDice(s: seq<int>) {
    forall i :: 0 <= i < |s| ==> 1 <= s[i] <= 6
  }

  /** `x` inserted into the sorted `s` at its place. */
  function Insert(s: seq<int>, x: int): (r: seq<int>)
    requires Sorted(s)
    ensures Sorted(r) && multiset(r) == multiset(s) + multiset{x}
    ensures r[0] == if |s| == 0 || x <= s[0] then x else s[0]
  {
    if |s| == 0 then [x]
    else if x <= s[0] then [x] + s
    else
      SortedParts(s);
      var tail := Insert(s[1..], x);
      SortedCons(s[0], tail);
      assert s == [s[0]] + s[1..];
      [s[0]] + tail
  }

  /** The tail of a sorted sequence is sorted, and its head is at most the tail's head. */
  lemma SortedParts(s: seq<int>)
    requires Sorted(s) && |s| > 0
    ensures Sorted(s[1..]) && (|s| > 1 ==> s[0] <= s[1])
  {
  }

  /** Putting a value no larger than the head in front of a sorted sequence keeps it sorted. */
  lemma SortedCons(h: int, t: seq<int>)
    requires Sorted(t) && (|t| > 0 ==> h <= t[0])
    ensures Sorted([h] + t)
  {
    var r := [h] + t;
    forall i, j | 0 <= i < j < |r|
      ensures r[i] <= r[j]
    {
      if i == 0 && j > 1 {
        assert h <= t[0] <= t[j - 1];
      }
    }
  }

  /** The sorted permutation of `s`, inserting its elements one by one in order. */
  function Sort(s: seq<int>): (r: seq<int>)
    ensures Sorted(r) && multiset(r) == multiset(s)
    decreases |s|
  {
    if |s| == 0 then []
    else
      assert s == s[..|s| - 1] + [s[|s| - 1]];
      Insert(Sort(s[..|s| - 1]), s[|s| - 1])
  }

  /** `sort` / `sort!` on die values: the sorted permutation of `s`. */
  method SortValues(s: seq<int>) returns (r: seq<int>)
    ensures r == Sort(s)
  {
    r := [];
    for i := 0 to |s|
      invariant r == Sort(s[..i])
    {
      assert s[..i + 1][..i] == s[..i];
      r := Insert(r, s[i]);
    }
    assert s[..|s|] == s;
  }

  /** The head of a sorted sequence is at most each of its elements. */
  lemma SortedHeadIsLeast(a: seq<int>, x: int)
    requires Sorted(a) && x in multiset(a)
    ensures a[0] <= x
  {
    var j :| 0 <= j < |a| && a[j] == x;
  }

  /** Two sorted sequences with the same elements have the same head, and their tails are again such a pair. */
  lemma SortedSameHead(a: seq<int>, b: seq<int>)
    requires Sorted(a) && Sorted(b) && multiset(a) == multiset(b) && |a| > 0
    ensures |b| > 0 && a[0] == b[0]
    ensures Sorted(a[1..]) && Sorted(b[1..]) && multiset(a[1..]) == multiset(b[1..])
  {
    assert |b| == |multiset(b)| == |multiset(a)| == |a|;
    SortedHeadIsLeast(a, b[0]);
    SortedHeadIsLeast(b, a[0]);
    MultisetOfTail(a);
    MultisetOfTail(b);
  }

  lemma MultisetOfTail(a: seq<int>)
    requires |a| > 0
    ensures multiset(a[1..]) == multiset(a) - multiset{a[0]}
  {
    assert a == [a[0]] + a[1..];
  }

  /** A sorted permutation is unique: two sorted sequences with the same elements are equal. */
  lemma {:induction false} SortedUnique(a: seq<int>, b: seq<int>)
    requires Sorted(a) && Sorted(b) && multiset(a) == multiset(b)
    ensures a == b
    decreases |a|
  {
    if |a| == 0 {
      assert |b| == |multiset(b)| == 0;
    } else {
      SortedSameHead(a, b);
      SortedUnique(a[1..], b[1..]);
      assert a == [a[0]] + a[1..] && b == [b[0]] + b[1..];
    }
  }

  /** Reordering the dice does not change what the scan of the sorted dice gives. */
  lemma SortedScanIsOrderFree(t: Tally, a: seq<int>, b: seq<int>)
    requires Sorted(a) && Sorted(b) && multiset(a) == multiset(b)
    ensures Scan(t, a) == Scan(t, b)
  {
    SortedUnique(a, b);
  }

  /** A sequence of `c` copies of `face`, however it was built, holds `face` exactly `c` times. */
  lemma {:induction false} CountAllSame(s: seq<int>, face: int)
    requires forall i :: 0 <= i < |s| ==> s[i] == face
    ensures multiset(s)[face] == |s|
    decreases |s|
  {
    if |s| > 0 {
      assert s == s[..|s| - 1] + [s[|s| - 1]];
      CountAllSame(s[..|s| - 1], face);
    }
  }

  /** A leading run of `c` equal values contributes its run value, whatever follows a different value. */
  lemma {:induction false} ScanLeadingRun(t: Tally, v: seq<int>, face: int, c: nat)
    requires c <= |v| && (forall i :: 0 <= i < c ==> v[i] == face)
    requires c == |v| || v[c] != face
    ensures Scan(t, v) == RunValue(t, face, c) + Scan(t, v[c..])
    decreases c
  {
    if c >= 3 {
      assert Scan(t, v) == TripleValue(t, face) + Scan(t, v[3..]);
      assert v[3..][c - 3..] == v[c..];
      ScanLeadingRun(t, v[3..], face, c - 3);
    } else if c > 0 {
      assert !(|v| >= 3 && v[0] == v[1] && v[1] == v[2]);
      assert Scan(t, v) == SingleValue(t, face) + Scan(t, v[1..]);
      assert v[1..][c - 1..] == v[c..];
      ScanLeadingRun(t, v[1..], face, c - 1);
    }
  }

  /** `FaceTotal` from `face` on reads only the counts of faces `face` to 6. */
  lemma {:induction false} FaceTotalAgrees(t: Tally, m: multiset<int>, n: multiset<int>, face: int)
    requires forall g :: face <= g <= 6 ==> m[g] == n[g]
    ensures FaceTotal(t, m, face) == FaceTotal(t, n, face)
    decreases 7 - face
  {
    if face <= 6 {
      FaceTotalAgrees(t, m, n, face + 1);
    }
  }

  /** The length of the run of `face` at the front of `v`. */
  function LeadingCount(v: seq<int>, face: int): (c: nat)
    ensures c <= |v| && (forall i :: 0 <= i < c ==> v[i] == face) && (c == |v| || v[c] != face)
  {
    if |v| > 0 && v[0] == face then 1 + LeadingCount(v[1..], face) else 0
  }

  /** No dice are worth nothing. */
  lemma {:induction false} FaceTotalOfNoDice(t: Tally, face: int)
    ensures FaceTotal(t, multiset{}, face) == 0
    decreases 7 - face
  {
    if face <= 6 {
      FaceTotalOfNoDice(t, face + 1);
    }
  }

  /** What follows the leading run of `face` in sorted values from `face` to 6 is sorted and runs from `face + 1` to 6. */
  lemma SortedRunRest(v: seq<int>, face: int)
    requires Sorted(v) && forall i :: 0 <= i < |v| ==> face <= v[i] <= 6
    ensures var rest := v[LeadingCount(v, face)..];
      Sorted(rest) && forall i :: 0 <= i < |rest| ==> face + 1 <= rest[i] <= 6
  {
    var c := LeadingCount(v, face);
    var rest := v[c..];
    if c < |v| {
      assert v[c] > face;
      forall i | 0 <= i < |rest|
        ensures face + 1 <= rest[i]
      {
        assert rest[i] == v[c + i] >= v[c];
      }
    }
  }

  /** The leading run of `face` holds every `face`; what follows holds every other value. */
  lemma SortedRunCounts(v: seq<int>, face: int)
    requires forall i :: 0 <= i < |v[LeadingCount(v, face)..]| ==> face + 1 <= v[LeadingCount(v, face)..][i]
    ensures var c := LeadingCount(v, face);
      && multiset(v)[face] == c
      && forall g :: face + 1 <= g ==> multiset(v)[g] == multiset(v[c..])[g]
  {
    var c := LeadingCount(v, face);
    var rest := v[c..];
    assert v == v[..c] + rest;
    CountAllSame(v[..c], face);
    assert face !in multiset(rest);
    forall g | face + 1 <= g
      ensures multiset(v)[g] == multiset(rest)[g]
    {
      assert g !in multiset(v[..c]);
    }
  }

  /**
   * The scan of sorted dice equals the reference per-face total: the scan
   * finds every triple the counts allow. This is the closed form of `score`
   * and of the non-scoring count.
   */
  lemma {:induction false} ScanOfSortedDice(t: Tally, v: seq<int>, face: int)
    requires Sorted(v) && 1 <= face && forall i :: 0 <= i < |v| ==> face <= v[i] <= 6
    ensures Scan(t, v) == FaceTotal(t, multiset(v), face)
    decreases 7 - face
  {
    if |v| == 0 {
      FaceTotalOfNoDice(t, face);
    } else {
      assert face <= v[0] <= 6;
      var c := LeadingCount(v, face);
      ScanLeadingRun(t, v, face, c);
      SortedRunRest(v, face);
      SortedRunCounts(v, face);
      ScanOfSortedDice(t, v[c..], face + 1);
      FaceTotalAgrees(t, multiset(v), multiset(v[c..]), face + 1);
    }
  }

  /** A run of a die face is worth no negative number of points. */
  lemma {:induction false} RunValuePointsNonNegative(face: int, count: nat)
    requires face >= 1
    ensures RunValue(Points, face, count) >= 0
    decreases count
  {
    if count >= 3 {
      RunValuePointsNonNegative(face, count - 3);
    } else if count > 0 {
      RunValuePointsNonNegative(face, count - 1);
    }
  }

  /** The points of dice are never negative. */
  lemma {:induction false} FaceTotalPointsNonNegative(m: multiset<int>, face: int)
    requires face >= 1
    ensures FaceTotal(Points, m, face) >= 0
    decreases 7 - face
  {
    if face <= 6 {
      RunValuePointsNonNegative(face, m[face]);
      FaceTotalPointsNonNegative(m, face + 1);
    }
  }

  /** The points of any values are a multiple of 50. */
  lemma {:induction false} ScanPointsMultipleOf50(v: seq<int>)
    ensures Scan(Points, v) % 50 == 0
    decreases |v|
  {
    if |v| >= 3 && v[0] == v[1] && v[1] == v[2] {
      ScanPointsMultipleOf50(v[3..]);
      var rest := Scan(Points, v[3..]);
      var units := (if v[0] == 1 then 20 else 2 * v[0]) + rest / 50;
      assert Scan(Points, v) == 50 * units;
    } else if |v| > 0 {
      ScanPointsMultipleOf50(v[1..]);
      var rest := Scan(Points, v[1..]);
      var units := (if v[0] == 1 then 2 else if v[0] == 5 then 1 else 0) + rest / 50;
      assert Scan(Points, v) == 50 * units;
    }
  }

  /** The non-scoring count is between 0 and the number of dice. */
  lemma {:induction false} NonscoringAtMostDice(v: seq<int>)
    ensures 0 <= Scan(Nonscoring, v) <= |v|
    decreases |v|
  {
    if |v| >= 3 && v[0] == v[1] && v[1] == v[2] {
      NonscoringAtMostDice(v[3..]);
    } else if |v| > 0 {
      NonscoringAtMostDice(v[1..]);
    }
  }
}
