/**
  The slot range array as the program keeps it: a buffer of ranges and their number, sorted
  and merged in place.
*/
module SlotRangeArray {
  import opened SlotRanges
  import opened Wrappers

  /** An order the library's sort may leave a sequence in. */
  ghost predicate SortOf(sorted: seq<Range>, l: seq<Range>) {
    multiset(sorted) == multiset(l) && SortedByStart(sorted)
  }

  lemma SortLength(sorted: seq<Range>, l: seq<Range>)
    requires SortOf(sorted, l)
    ensures |sorted| == |l|
    ensures |l| <= 1 ==> sorted == l
  {
    assert |multiset(sorted)| == |sorted| && |multiset(l)| == |l|;
    if |l| == 1 {
      assert sorted[0] in multiset(l);
    }
  }

  lemma AbsorbInPlace(m: seq<Range>, r: Range)
    requires m != []
    ensures m[|m| - 1].end + 1 == r.start ==> Absorb(m, r) == m[..|m| - 1] + [Range(m[|m| - 1].start, r.end)]
    ensures m[|m| - 1].end + 1 != r.start ==> Absorb(m, r) == m + [r]
  {
  }

  /** Adjacent ranges of a sorted array are joined in place, from the front. */
  method MergeInPlace(a: array<Range>, n: nat) returns (m: nat)
    requires 0 < n <= a.Length
    modifies a
    ensures 0 < m <= n && a[..m] == Merged(old(a[..n]))
  {
    hide Absorb, Merged;
    ghost var sorted := a[..n];
    var idx := 0;
    OneRange(sorted);
    assert a[..1] == sorted[..1];
    for i := 1 to n
      invariant 0 <= idx < i && a[..idx + 1] == Merged(sorted[..i])
      invariant forall k :: i <= k < n ==> a[k] == sorted[k]
    {
      ghost var merged := a[..idx + 1];
      MergedNext(sorted, i);
      AbsorbInPlace(merged, a[i]);
      if a[idx].end + 1 == a[i].start {
        a[idx] := Range(a[idx].start, a[i].end);
        assert a[..idx + 1] == merged[..idx] + [a[idx]];
      } else {
        idx := idx + 1;
        a[idx] := a[i];
        assert a[..idx + 1] == merged + [a[idx]];
      }
    }
    assert sorted[..n] == sorted;
    m := idx + 1;
  }

  lemma OneRange(l: seq<Range>)
    requires l != []
    ensures Merged(l[..1]) == l[..1]
  {
  }

  // ---- Marking slots ----

  /** No slot is in two ranges, and the marked slots are those in one. */
  ghost predicate Marked(l: seq<Range>, used: seq<bool>)
    requires |used| == SLOTS
  {
    forall x :: Times(l, x) <= 1 && (0 <= x < SLOTS ==> used[x] == (Times(l, x) == 1))
  }

  lemma NothingMarked(used: seq<bool>)
    requires |used| == SLOTS && forall x :: 0 <= x < SLOTS ==> !used[x]
    ensures Marked([], used)
  {
  }

  lemma OneMore(l: seq<Range>, r: Range, x: int)
    ensures Times(l + [r], x) == Times(l, x) + if Has(r, x) then 1 else 0
  {
    assert (l + [r])[..|l|] == l;
  }

  lemma MarkedMore(l: seq<Range>, r: Range, before: seq<bool>, after: seq<bool>)
    requires |before| == |after| == SLOTS && Marked(l, before) && r.end < SLOTS
    requires forall x :: 0 <= x < SLOTS ==> after[x] == (before[x] || Has(r, x))
    requires forall x :: r.start <= x <= r.end ==> !before[x]
    ensures Marked(l + [r], after)
  {
    hide Times;
    forall x
      ensures Times(l + [r], x) <= 1 && (0 <= x < SLOTS ==> after[x] == (Times(l + [r], x) == 1))
    {
      OneMore(l, r, x);
    }
  }

  lemma MarkedTwice(l: seq<Range>, r: Range, used: seq<bool>, x: int)
    requires |used| == SLOTS && Marked(l, used) && 0 <= x < SLOTS && used[x] && Has(r, x)
    ensures !Once(l + [r])
  {
    OneMore(l, r, x);
    assert Times(l + [r], x) == 2;
  }

  /** Mark the slots of one more range, unless one of them is marked already. */
  method Mark(used: array<bool>, r: Range, ghost l: seq<Range>) returns (fits: bool)
    requires used.Length == SLOTS && Marked(l, used[..]) && r.start <= r.end < SLOTS
    modifies used
    ensures fits ==> Marked(l + [r], used[..])
    ensures !fits ==> !Once(l + [r])
  {
    hide Times, Once, Marked;
    ghost var before := used[..];
    var j := r.start;
    while j <= r.end
      invariant r.start <= j <= r.end + 1
      invariant forall x :: r.start <= x < j ==> !before[x]
      invariant forall x :: 0 <= x < SLOTS ==> used[x] == (before[x] || r.start <= x < j)
    {
      if used[j] {
        MarkedTwice(l, r, before, j);
        return false;
      }
      used[j] := true;
      j := j + 1;
    }
    MarkedMore(l, r, before, used[..]);
    fits := true;
  }

  /** Ranges that fail a check make the whole array fail. */
  lemma FailsWhole(m: seq<Range>, n: nat)
    requires n <= |m| && !Checked(m[..n])
    ensures !Checked(m)
  {
    assert m == m[..n] + m[n..];
    if Checked(m) {
      forall x
        ensures Times(m[..n], x) <= 1
      {
        TimesSplit(m[..n], m[n..], x);
      }
      assert false;
    }
  }

  lemma LastFails(l: seq<Range>, r: Range)
    requires r.start >= SLOTS || r.end >= SLOTS || r.start > r.end || !Once(l + [r])
    ensures !Checked(l + [r])
  {
    assert (l + [r])[|l|] == r;
  }

  lemma MarkedChecked(m: seq<Range>, used: seq<bool>)
    requires |used| == SLOTS && Marked(m, used) && InBounds(m) && WellFormed(m)
    ensures Checked(m)
  {
  }

  /** One more slot behind the last one. */
  function Extended(l: seq<Range>, slot: Short): seq<Range>
    requires l != []
  {
    var last := l[|l| - 1];
    if slot == last.end + 1 then l[..|l| - 1] + [Range(last.start, slot)] else l + [Range(slot, slot)]
  }

  /** It keeps the normal form and adds that slot alone. */
  lemma ExtendedNormal(l: seq<Range>, slot: Short, x: int)
    requires l != [] && Normal(l) && l[|l| - 1].end < slot < SLOTS
    ensures Normal(Extended(l, slot))
    ensures Times(Extended(l, slot), x) == Times(l, x) + if x == slot then 1 else 0
  {
    hide Times;
    var last, rest := l[|l| - 1], l[..|l| - 1];
    OneMore(rest, last, x);
    OneMore(rest, Range(last.start, slot), x);
    OneMore(l, Range(slot, slot), x);
    assert l == rest + [last];
    ExtendedIsNormal(l, slot);
    hide Normal;
  }

  lemma ExtendedIsNormal(l: seq<Range>, slot: Short)
    requires l != [] && Normal(l) && l[|l| - 1].end < slot < SLOTS
    ensures Normal(Extended(l, slot))
  {
  }

  class Slots {
    var ranges: array<Range>
    var num: nat

    ghost predicate Valid()
      reads this
    {
      num <= ranges.Length
    }

    function View(): seq<Range>
      requires Valid()
      reads this, ranges
    {
      ranges[..num]
    }

    constructor (l: seq<Range>)
      ensures Valid() && View() == l && fresh(ranges)
    {
      num := |l|;
      ranges := new Range[|l|](i requires 0 <= i < |l| => l[i]);
    }

    method SortAndMerge(sorted: seq<Range>)
      requires Valid() && SortOf(sorted, View())
      modifies this`num, ranges
      ensures Valid() && View() == Merged(sorted)
    {
      SortLength(sorted, View());
      if num <= 1 {
        return;
      }
      forall i | 0 <= i < num {
        ranges[i] := sorted[i];
      }
      assert View() == sorted;
      num := MergeInPlace(ranges, num);
    }

    /** Add a slot beyond the last one, growing the buffer when it is full. */
    method Extend(slot: Short)
      requires Valid() && num > 0 && slot > ranges[num - 1].end
      modifies this, ranges
      ensures Valid() && (ranges == old(ranges) || fresh(ranges))
      ensures View() == Extended(old(View()), slot)
    {
      var last := ranges[num - 1];
      if slot == last.end + 1 {
        ranges[num - 1] := Range(last.start, slot);
        return;
      }
      if num >= ranges.Length {
        var full := ranges;
        ranges := new Range[full.Length * 2](i requires 0 <= i reads full =>
                                               if i < full.Length then full[i] else Range(0, 0));
      }
      ranges[num] := Range(slot, slot);
      num := num + 1;
    }

    /**
      Sort, merge and check.  For well-formed ranges the answer is yes exactly when they are
      in bounds and no slot is in two of them; then the array is in normal form and has the
      slots it had.
    */
    method NormalizeAndValidate(sorted: seq<Range>) returns (ok: bool)
      requires Valid() && SortOf(sorted, View())
      modifies this`num, ranges
      ensures Valid()
      ensures ok <==> Limit(|sorted|) && Checked(Merged(sorted))
      ensures Limit(|sorted|) ==> View() == Merged(sorted)
      ensures WellFormed(old(View())) ==>
                && (ok <==> Limit(|old(View())|) && InBounds(old(View())) && Once(old(View())))
                && (ok ==> Normal(View()) && SameSlots(View(), old(View())))
    {
      ghost var given := View();
      SortLength(sorted, given);
      if WellFormed(given) {
        CheckedExactly(given, sorted);
      }
      hide Checked, Merged, Once, SameSlots, SortedByStart;
      if num == 0 || num >= SLOTS {
        return false;
      }
      SortAndMerge(sorted);
      ok := Check();
    }

    /** The checks, with one mark per slot. */
    method Check() returns (ok: bool)
      requires Valid()
      ensures ok <==> Checked(View())
    {
      hide Checked, Once, Marked, Times;
      var used := new bool[SLOTS](_ => false);
      ghost var m := View();
      var i := 0;
      NothingMarked(used[..]);
      assert m[..0] == [];
      while i < num
        invariant i <= num && InBounds(m[..i]) && WellFormed(m[..i])
        invariant Marked(m[..i], used[..]) && m == View()
      {
        var r := ranges[i];
        assert m[..i + 1] == m[..i] + [r];
        if r.start >= SLOTS || r.end >= SLOTS {
          LastFails(m[..i], r);
          FailsWhole(m, i + 1);
          return false;
        }
        if r.start > r.end {
          LastFails(m[..i], r);
          FailsWhole(m, i + 1);
          return false;
        }
        var fits := Mark(used, r, m[..i]);
        if !fits {
          LastFails(m[..i], r);
          FailsWhole(m, i + 1);
          return false;
        }
        i := i + 1;
      }
      assert m[..num] == m;
      MarkedChecked(m, used[..]);
      ok := true;
    }
  }

  /** Add a slot to an array that may not exist yet. */
  method Append(slots: Slots?, slot: Short) returns (r: Slots)
    requires slots != null ==> slots.Valid() && slots.num > 0 && slot > slots.ranges[slots.num - 1].end
    modifies if slots == null then {} else {slots, slots.ranges}
    ensures r.Valid() && (r == slots || fresh(r))
    ensures fresh(r.ranges) || (slots != null && r.ranges == old(slots.ranges))
    ensures r.View() == if slots == null then [Range(slot, slot)] else Extended(old(slots.View()), slot)
  {
    if slots == null {
      var room := [Range(slot, slot), Range(0, 0), Range(0, 0), Range(0, 0)];
      r := new Slots(room);
      r.num := 1;
      assert r.View() == room[..1];
      return;
    }
    slots.Extend(slot);
    r := slots;
  }

  /** Ranges in normal form that have exactly the slots below n which are set. */
  ghost predicate RangesOf(l: seq<Range>, owned: seq<bool>, n: nat) {
    && Normal(l)
    && forall x :: Times(l, x) == if 0 <= x < |owned| && x < n && owned[x] then 1 else 0
  }

  /** The slots the node or its master owns, as ranges: all of them outside a cluster, none without a master. */
  method LocalSlotRanges(cluster: bool, master: Option<seq<bool>>) returns (r: Slots)
    requires master.Some? ==> |master.value| == SLOTS
    ensures r.Valid()
    ensures cluster && master.Some? ==> RangesOf(r.View(), master.value, SLOTS)
    ensures cluster && master.None? ==> r.View() == []
    ensures !cluster ==> RangesOf(r.View(), seq(SLOTS, _ => true), SLOTS)
  {
    hide Times, Normal, RangesOf;
    if !cluster {
      r := new Slots([Range(0, SLOTS - 1)]);
      AllSlots();
      return;
    }
    var slots: Slots? := null;
    if master.Some? {
      var owned := master.value;
      NoSlots(owned);
      for i := 0 to SLOTS
        invariant slots != null ==> fresh(slots) && slots.Valid() && fresh(slots.ranges)
        invariant slots == null ==> RangesOf([], owned, i)
        invariant slots != null ==> slots.num > 0 && slots.ranges[slots.num - 1].end < i
        invariant slots != null ==> RangesOf(slots.View(), owned, i)
      {
        ghost var before := if slots == null then [] else slots.View();
        NextSlot(before, owned, i);
        if owned[i] {
          slots := Append(slots, i);
        }
      }
    }
    if slots == null {
      r := new Slots([]);
    } else {
      r := slots;
    }
  }

  lemma FirstRange(r: Range)
    ensures forall x :: Times([r], x) == if Has(r, x) then 1 else 0
  {
    forall x
      ensures Times([r], x) == if Has(r, x) then 1 else 0
    {
      OneMore([], r, x);
      assert [] + [r] == [r];
    }
  }

  lemma NoSlots(owned: seq<bool>)
    ensures RangesOf([], owned, 0)
  {
  }

  lemma AllSlots()
    ensures RangesOf([Range(0, SLOTS - 1)], seq(SLOTS, _ => true), SLOTS)
  {
    FirstRange(Range(0, SLOTS - 1));
    hide Times;
  }

  function Grown(l: seq<Range>, slot: Short): (m: seq<Range>)
    ensures m != [] && m[|m| - 1].end == slot
  {
    if l == [] then [Range(slot, slot)] else Extended(l, slot)
  }

  lemma NextSlot(l: seq<Range>, owned: seq<bool>, i: nat)
    requires i < |owned| == SLOTS && RangesOf(l, owned, i) && (l != [] ==> l[|l| - 1].end < i)
    ensures owned[i] ==> RangesOf(Grown(l, i), owned, i + 1)
    ensures !owned[i] ==> RangesOf(l, owned, i + 1)
  {
    hide Times;
    if owned[i] {
      forall x
        ensures Normal(Grown(l, i)) && Times(Grown(l, i), x) == Times(l, x) + if x == i then 1 else 0
      {
        GrownNormal(l, i, x);
      }
      hide Normal, Extended;
    }
  }

  lemma GrownNormal(l: seq<Range>, slot: Short, x: int)
    requires Normal(l) && slot < SLOTS && (l != [] ==> l[|l| - 1].end < slot)
    ensures Normal(Grown(l, slot))
    ensures Times(Grown(l, slot), x) == Times(l, x) + if x == slot then 1 else 0
  {
    if l == [] {
      FirstRange(Range(slot, slot));
    } else {
      ExtendedNormal(l, slot, x);
      hide Times, Normal;
    }
  }

  method SameRanges(a: array<Range>, n: nat, b: array<Range>, m: nat) returns (same: bool)
    requires n <= a.Length && m <= b.Length
    ensures same <==> a[..n] == b[..m]
  {
    if n != m {
      return false;
    }
    for i := 0 to n
      invariant a[..i] == b[..i]
    {
      if a[i].start != b[i].start || a[i].end != b[i].end {
        assert a[..n][i] != b[..m][i];
        return false;
      }
    }
    same := true;
  }

  /** Two arrays, or an array and itself, are merged and compared range by range. */
  method IsEqual(a: Slots, b: Slots, sortedA: seq<Range>, sortedB: seq<Range>) returns (same: bool)
    requires a.Valid() && b.Valid() && (a == b || a.ranges != b.ranges)
    requires SortOf(sortedA, a.View()) && SortOf(sortedB, if a == b then Merged(sortedA) else b.View())
    modifies a`num, a.ranges, b`num, b.ranges
    ensures if a == b then same else same <==> Merged(sortedA) == Merged(sortedB)
    ensures Checked(old(a.View())) && Checked(old(b.View())) ==> (same <==> SameSlots(old(a.View()), old(b.View())))
  {
    ghost var l, m := a.View(), b.View();
    if a != b && Checked(l) && Checked(m) {
      SameMerged(l, m, sortedA, sortedB);
    }
    hide Checked, Times, Merged, SortOf;
    a.SortAndMerge(sortedA);
    assert a != b ==> b.View() == m;
    b.SortAndMerge(sortedB);
    same := SameRanges(a.ranges, a.num, b.ranges, b.num);
  }

  /** For arrays without repeated slots the merged forms are equal exactly when the slots are. */
  lemma SameMerged(l: seq<Range>, m: seq<Range>, sortedL: seq<Range>, sortedM: seq<Range>)
    requires Checked(l) && Checked(m) && SortOf(sortedL, l) && SortOf(sortedM, m)
    ensures Merged(sortedL) == Merged(sortedM) <==> SameSlots(l, m)
  {
    CheckedExactly(l, sortedL);
    CheckedExactly(m, sortedM);
    hide Merged, Times;
    if SameSlots(l, m) {
      NormalUnique(Merged(sortedL), Merged(sortedM));
    }
  }
}
