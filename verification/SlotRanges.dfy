/**
  Arrays of hash slot ranges: sorting, merging, validating and comparing them.

  Sorting is left to the C library, which may order ranges with the same start in any way:
  every operation that sorts is given the order that comes out.
*/
module SlotRanges {

  const SLOTS := 16384
  const SHORT_MAX := 65535

  type Short = x: int | 0 <= x <= SHORT_MAX

  datatype Range = Range(start: Short, end: Short)

  // ---- What an array covers ----

  predicate Has(r: Range, x: int) {
    r.start <= x <= r.end
  }

  /** How many ranges have the slot. */
  function Times(l: seq<Range>, x: int): nat {
    if l == [] then 0 else Times(l[..|l| - 1], x) + if Has(l[|l| - 1], x) then 1 else 0
  }

  lemma TimesNext(l: seq<Range>, i: nat, x: int)
    requires i < |l|
    ensures Times(l[..i + 1], x) == Times(l[..i], x) + if Has(l[i], x) then 1 else 0
  {
    assert l[..i + 1][..i] == l[..i];
  }

  lemma {:induction false} TimesSplit(l: seq<Range>, m: seq<Range>, x: int)
    ensures Times(l + m, x) == Times(l, x) + Times(m, x)
    decreases |m|
  {
    if m == [] {
      assert l + m == l;
    } else {
      assert (l + m)[..|l + m| - 1] == l + m[..|m| - 1];
      TimesSplit(l, m[..|m| - 1], x);
    }
  }

  lemma TakenOut(m: seq<Range>, i: nat, x: int)
    requires i < |m|
    ensures Times(m, x) == Times(m[..i] + m[i + 1..], x) + if Has(m[i], x) then 1 else 0
  {
    assert m == m[..i + 1] + m[i + 1..];
    TimesSplit(m[..i + 1], m[i + 1..], x);
    TimesSplit(m[..i], m[i + 1..], x);
    TimesNext(m, i, x);
    hide Times, Has;
  }

  lemma TakenOutMembers(m: seq<Range>, i: nat)
    requires i < |m|
    ensures multiset(m[..i] + m[i + 1..]) == multiset(m) - multiset{m[i]}
  {
    assert m == m[..i] + ([m[i]] + m[i + 1..]);
    assert multiset(m) == multiset(m[..i]) + multiset([m[i]] + m[i + 1..]);
  }

  /** The order of the ranges does not matter. */
  lemma {:induction false} TimesReordered(l: seq<Range>, m: seq<Range>, x: int)
    requires multiset(l) == multiset(m)
    ensures Times(l, x) == Times(m, x)
    decreases |l|
  {
    hide Has;
    assert |multiset(l)| == |l| && |multiset(m)| == |m|;
    if l != [] {
      assert m[0] in multiset(l);
      var i :| 0 <= i < |l| && l[i] == m[0];
      TakenOut(l, i, x);
      TakenOutMembers(l, i);
      TakenOut(m, 0, x);
      TakenOutMembers(m, 0);
      TimesReordered(l[..i] + l[i + 1..], m[..0] + m[1..], x);
    }
  }

  predicate WellFormed(l: seq<Range>) {
    forall i :: 0 <= i < |l| ==> l[i].start <= l[i].end
  }

  predicate InBounds(l: seq<Range>) {
    forall i :: 0 <= i < |l| ==> l[i].start < SLOTS && l[i].end < SLOTS
  }

  ghost predicate Once(l: seq<Range>) {
    forall x :: Times(l, x) <= 1
  }

  predicate SortedByStart(l: seq<Range>) {
    forall i, j :: 0 <= i < j < |l| ==> l[i].start <= l[j].start
  }

  /** Well-formed ranges in increasing order with at least one slot between any two. */
  predicate Normal(l: seq<Range>) {
    && WellFormed(l) && InBounds(l)
    && forall i, j :: 0 <= i < j < |l| ==> l[i].end + 1 < l[j].start
  }

  // ---- Merging ----

  function Last(m: seq<Range>): Range
    requires m != []
  {
    m[|m| - 1]
  }

  function Front(m: seq<Range>): seq<Range>
    requires m != []
  {
    m[..|m| - 1]
  }

  /** The ranges merged so far take in one more. */
  function Absorb(m: seq<Range>, r: Range): (n: seq<Range>)
    requires m != []
    ensures n != [] && |n| <= |m| + 1
  {
    var last := m[|m| - 1];
    if last.end + 1 == r.start then m[..|m| - 1] + [Range(last.start, r.end)] else m + [r]
  }

  function Merged(l: seq<Range>): (m: seq<Range>)
    ensures |m| <= |l| && (l != [] ==> m != [])
  {
    if |l| <= 1 then l else Absorb(Merged(l[..|l| - 1]), l[|l| - 1])
  }

  lemma AbsorbTimes(m: seq<Range>, r: Range, x: int)
    requires m != [] && m[|m| - 1].start <= m[|m| - 1].end && r.start <= r.end
    ensures Times(Absorb(m, r), x) == Times(m, x) + if Has(r, x) then 1 else 0
  {
    var last, rest := m[|m| - 1], m[..|m| - 1];
    assert m == rest + [last];
    if last.end + 1 == r.start {
      assert (rest + [Range(last.start, r.end)])[..|rest|] == rest;
    } else {
      assert (m + [r])[..|m|] == m;
    }
  }

  /** Merging adjacent well-formed ranges leaves every slot as often as it was. */
  lemma {:induction false} MergedTimes(l: seq<Range>, x: int)
    requires WellFormed(l)
    ensures WellFormed(Merged(l))
    ensures Times(Merged(l), x) == Times(l, x)
    decreases |l|
  {
    if |l| > 1 {
      TimesNext(l, |l| - 1, x);
      hide Times, Absorb, Has;
      assert l[..|l|] == l;
      var m, r := Merged(l[..|l| - 1]), l[|l| - 1];
      MergedTimes(l[..|l| - 1], x);
      AbsorbTimes(m, r, x);
      AbsorbWellFormed(m, r);
    }
  }

  lemma AbsorbWellFormed(m: seq<Range>, r: Range)
    requires m != [] && WellFormed(m) && r.start <= r.end
    ensures WellFormed(Absorb(m, r))
  {
  }

  /** What merging keeps of a sorted array: sorted starts, and no range adjacent to the next one. */
  predicate Spaced(m: seq<Range>) {
    SortedByStart(m) && forall i :: 0 <= i < |m| - 1 ==> m[i].end + 1 != m[i + 1].start
  }

  lemma AbsorbSpaced(m: seq<Range>, r: Range)
    requires m != [] && Spaced(m) && Last(m).start <= r.start
    ensures Spaced(Absorb(m, r)) && Last(Absorb(m, r)).start <= r.start
  {
    var n := Absorb(m, r);
    assert forall i :: 0 <= i < |m| - 1 ==> n[i] == m[i];
    assert n[|m| - 1].start == m[|m| - 1].start;
  }

  lemma {:induction false} MergedSpaced(l: seq<Range>)
    requires SortedByStart(l)
    ensures Spaced(Merged(l))
    ensures l != [] ==> Last(Merged(l)).start <= Last(l).start
    decreases |l|
  {
    hide Absorb, Spaced;
    if |l| > 1 {
      MergedSpaced(l[..|l| - 1]);
      AbsorbSpaced(Merged(l[..|l| - 1]), l[|l| - 1]);
    } else {
      FewSpaced(l);
    }
  }

  lemma FewSpaced(l: seq<Range>)
    requires |l| <= 1
    ensures Spaced(l)
  {
  }

  lemma TwoHave(l: seq<Range>, i: nat, j: nat, x: int)
    requires i < j < |l| && Has(l[i], x) && Has(l[j], x)
    ensures Times(l, x) >= 2
  {
    TimesNext(l, i, x);
    TimesNext(l, j, x);
    assert l[..j] == l[..i + 1] + l[i + 1..j];
    TimesSplit(l[..i + 1], l[i + 1..j], x);
    assert l == l[..j + 1] + l[j + 1..];
    TimesSplit(l[..j + 1], l[j + 1..], x);
  }

  /** Sorted, spaced, and no slot twice: then the normal form. */
  lemma SpacedNormal(m: seq<Range>)
    requires Spaced(m) && WellFormed(m) && InBounds(m) && Once(m)
    ensures Normal(m)
  {
    forall i, j | 0 <= i < j < |m|
      ensures m[i].end + 1 < m[j].start
    {
      ApartLater(m, i, j);
    }
  }

  lemma {:induction false} ApartLater(m: seq<Range>, i: nat, j: nat)
    requires Spaced(m) && WellFormed(m) && Once(m) && i < j < |m|
    ensures m[i].end + 1 < m[j].start
    decreases j - i
  {
    if m[j].start <= m[i].end {
      TwoHave(m, i, j, m[j].start);
    } else if j > i + 1 {
      ApartLater(m, i, i + 1);
      assert m[i + 1].start <= m[j].start;
    }
  }

  // ---- Normal forms are unique ----

  ghost predicate SameSlots(l: seq<Range>, m: seq<Range>) {
    forall x :: Times(l, x) > 0 <==> Times(m, x) > 0
  }

  lemma {:induction false} HasMeans(l: seq<Range>, x: int)
    ensures Times(l, x) > 0 <==> exists i :: 0 <= i < |l| && Has(l[i], x)
    decreases |l|
  {
    if l != [] {
      HasMeans(l[..|l| - 1], x);
    }
  }

  /** In a normal array the last range is apart from all others. */
  lemma LastApart(l: seq<Range>, x: int)
    requires Normal(l) && l != []
    ensures var last := l[|l| - 1];
            && (Times(l, x) > 0 <==> Has(last, x) || Times(l[..|l| - 1], x) > 0)
            && (Times(l, x) > 0 ==> x <= last.end)
            && (Times(l[..|l| - 1], x) > 0 ==> x + 1 < last.start)
  {
    var rest := l[..|l| - 1];
    HasMeans(rest, x);
    hide Times;
    assert forall i :: 0 <= i < |rest| ==> rest[i] == l[i] && l[i].end + 1 < l[|l| - 1].start;
    TimesNext(l, |l| - 1, x);
    assert l[..|l|] == l;
  }

  lemma SameLast(l: seq<Range>, m: seq<Range>)
    requires Normal(l) && Normal(m) && l != [] && m != [] && SameSlots(l, m)
    ensures l[|l| - 1] == m[|m| - 1]
  {
    var a, b := l[|l| - 1], m[|m| - 1];
    hide Times;
    LastApart(l, a.end);
    LastApart(m, a.end);
    LastApart(l, b.end);
    LastApart(m, b.end);
    LastApart(l, b.start - 1);
    LastApart(m, b.start - 1);
    LastApart(l, a.start - 1);
    LastApart(m, a.start - 1);
  }

  lemma NothingNormal(l: seq<Range>, m: seq<Range>)
    requires WellFormed(l) && WellFormed(m) && SameSlots(l, m)
    ensures l == [] <==> m == []
  {
    if m != [] {
      HasMeans(m, m[0].start);
    }
    if l != [] {
      HasMeans(l, l[0].start);
    }
  }

  /** Two normal arrays with the same slots are the same array. */
  lemma {:induction false} NormalUnique(l: seq<Range>, m: seq<Range>)
    requires Normal(l) && Normal(m) && SameSlots(l, m)
    ensures l == m
    decreases |l|
  {
    hide Times;
    NothingNormal(l, m);
    if l != [] {
      SameLast(l, m);
      var l', m' := l[..|l| - 1], m[..|m| - 1];
      forall x
        ensures Times(l', x) > 0 <==> Times(m', x) > 0
      {
        LastApart(l, x);
        LastApart(m, x);
      }
      NormalUnique(l', m');
      assert l == l' + [l[|l| - 1]] && m == m' + [m[|m| - 1]];
    }
  }

  // ---- Validating ----

  predicate Limit(n: int) {
    0 < n < SLOTS
  }

  /** The checks made after sorting and merging. */
  ghost predicate Checked(m: seq<Range>) {
    InBounds(m) && WellFormed(m) && Once(m)
  }

  /** For well-formed ranges the checks on the merged array say what they should of the given one. */
  lemma CheckedExactly(given: seq<Range>, sorted: seq<Range>)
    requires WellFormed(given) && multiset(given) == multiset(sorted) && SortedByStart(sorted)
    ensures Checked(Merged(sorted)) <==> InBounds(given) && Once(given)
    ensures Checked(Merged(sorted)) ==> Normal(Merged(sorted)) && SameSlots(Merged(sorted), given)
    ensures forall x :: Times(Merged(sorted), x) == Times(given, x)
  {
    SameMembers(given, sorted);
    assert WellFormed(sorted);
    forall x
      ensures Times(Merged(sorted), x) == Times(given, x)
    {
      MergedTimes(sorted, x);
      TimesReordered(given, sorted, x);
    }
    MergedTimes(sorted, 0);
    MergedBounds(sorted);
    MergedSpaced(sorted);
    hide Times;
    if Checked(Merged(sorted)) {
      SpacedNormal(Merged(sorted));
    }
    assert InBounds(given) <==> InBounds(sorted);
  }

  lemma SameMembers(l: seq<Range>, m: seq<Range>)
    requires multiset(l) == multiset(m)
    ensures forall r :: r in l <==> r in m
    ensures |l| == |m|
    ensures WellFormed(l) <==> WellFormed(m)
    ensures InBounds(l) <==> InBounds(m)
  {
    assert forall r :: r in l <==> r in multiset(l);
    assert forall r :: r in m <==> r in multiset(m);
    assert |multiset(l)| == |l| && |multiset(m)| == |m|;
    assert (forall i :: 0 <= i < |l| ==> l[i] in m) && (forall i :: 0 <= i < |m| ==> m[i] in l);
  }

  lemma AbsorbBounds(m: seq<Range>, r: Range)
    requires m != [] && WellFormed(m) && r.start <= r.end
    ensures InBounds(Absorb(m, r)) <==> InBounds(m) && r.end < SLOTS
    ensures WellFormed(Absorb(m, r))
  {
    var n, last := Absorb(m, r), m[|m| - 1];
    assert n[|n| - 1].end == r.end;
    if InBounds(n) {
      if last.end + 1 == r.start {
        assert forall i :: 0 <= i < |m| - 1 ==> m[i] == n[i];
      } else {
        assert forall i :: 0 <= i < |m| ==> m[i] == n[i];
      }
    }
  }

  /** Merging well-formed ranges keeps the largest slot. */
  lemma {:induction false} MergedBounds(l: seq<Range>)
    requires WellFormed(l)
    ensures InBounds(Merged(l)) <==> InBounds(l)
    ensures WellFormed(Merged(l))
    decreases |l|
  {
    hide Absorb, InBounds;
    if |l| > 1 {
      var l', r := l[..|l| - 1], l[|l| - 1];
      MergedBounds(l');
      AbsorbBounds(Merged(l'), r);
      LastInBounds(l);
    }
  }

  lemma LastInBounds(l: seq<Range>)
    requires l != [] && WellFormed(l)
    ensures InBounds(l) <==> InBounds(l[..|l| - 1]) && l[|l| - 1].end < SLOTS
  {
    assert l == l[..|l| - 1] + [l[|l| - 1]];
  }

  // ---- Ranges given the wrong way round ----

  predicate Reversed(r: Range) {
    r.start > r.end
  }

  /** The range at i is joined to what comes before it, or what comes after is joined to it. */
  predicate Joined(l: seq<Range>, i: nat)
    requires i < |l|
  {
    || (i > 0 && Last(Merged(l[..i])).end + 1 == l[i].start)
    || (i + 1 < |l| && Last(Merged(l[..i + 1])).end + 1 == l[i + 1].start)
  }

  lemma MergedNext(l: seq<Range>, n: nat)
    requires 0 < n < |l|
    ensures Merged(l[..n + 1]) == Absorb(Merged(l[..n]), l[n])
  {
    assert l[..n + 1][..n] == l[..n];
  }

  lemma AbsorbKeeps(m: seq<Range>, r: Range, x: Range)
    requires m != [] && (x in Front(m) || (x == Last(m) && x.end + 1 != r.start))
    ensures x in Front(Absorb(m, r))
  {
    if Last(m).end + 1 == r.start {
      assert Front(Absorb(m, r)) == Front(m);
    } else {
      assert Front(Absorb(m, r)) == m && m == Front(m) + [Last(m)];
    }
  }

  /** A range that is joined to nothing is still there after merging. */
  lemma {:induction false} LonerStays(l: seq<Range>, i: nat, n: nat)
    requires i < n <= |l| && !Joined(l, i)
    ensures if n == i + 1 then Last(Merged(l[..n])) == l[i] else l[i] in Front(Merged(l[..n]))
    decreases n
  {
    hide Absorb;
    if n == i + 1 {
      if i > 0 {
        MergedNext(l, i);
        NotAbsorbed(Merged(l[..i]), l[i]);
      }
    } else {
      LonerStays(l, i, n - 1);
      MergedNext(l, n - 1);
      AbsorbKeeps(Merged(l[..n - 1]), l[n - 1], l[i]);
    }
  }

  lemma NotAbsorbed(m: seq<Range>, r: Range)
    requires m != [] && Last(m).end + 1 != r.start
    ensures Last(Absorb(m, r)) == r
  {
  }

  /**
    The check for reversed ranges comes after merging, so it is exact only if merging does
    not hide one: an accepted array was well formed if and only if no reversed range was
    joined to another range.
  */
  lemma ReversedExactly(sorted: seq<Range>)
    requires Checked(Merged(sorted))
    ensures WellFormed(sorted) <==> forall i :: 0 <= i < |sorted| && Reversed(sorted[i]) ==> !Joined(sorted, i)
  {
    hide Checked, Merged, Joined;
    if !WellFormed(sorted) {
      var i :| 0 <= i < |sorted| && Reversed(sorted[i]);
      if !Joined(sorted, i) {
        LonerStays(sorted, i, |sorted|);
        assert sorted[..|sorted|] == sorted;
        ReversedFails(Merged(sorted), sorted[i]);
      }
    }
  }

  lemma ReversedFails(m: seq<Range>, r: Range)
    requires m != [] && Reversed(r) && (r == Last(m) || r in Front(m))
    ensures !Checked(m)
  {
    assert r in m;
  }

  /** 1-4 followed by the reversed 5-2 is accepted, as 1-2. */
  lemma ReversedAccepted()
    ensures var l := [Range(1, 4), Range(5, 2)];
            SortedByStart(l) && Reversed(l[1]) && Merged(l) == [Range(1, 2)] && Checked(Merged(l))
  {
    var l := [Range(1, 4), Range(5, 2)];
    assert l[..1] == [Range(1, 4)];
    assert Merged(l) == [Range(1, 2)];
    forall x
      ensures Times([Range(1, 2)], x) <= 1
    {
      assert [Range(1, 2)][..0] == [];
    }
  }
}
