/**
  The manifest of the append-only files: one BASE snapshot, the INCR files written
  since, and HISTORY files waiting to be deleted.
*/
module AofManifest {
  import opened Wrappers

  datatype FileName = Base(number: nat) | Incr(number: nat)

  /** What the manifest file on disk says. */
  datatype Listing = Listing(base: Option<nat>, history: seq<FileName>, incr: seq<nat>)

  /** The manifest in memory: the listing, and the last sequence numbers handed out. */
  datatype Manifest = Manifest(base: Option<nat>, history: seq<FileName>, incr: seq<nat>, currBase: nat, currIncr: nat)

  function Text(m: Manifest): Listing {
    Listing(m.base, m.history, m.incr)
  }

  /** Loading takes the sequence numbers from the files listed. */
  function Load(l: Listing): Manifest {
    Manifest(l.base, l.history, l.incr,
             if l.base.Some? then l.base.value else 0,
             if l.incr == [] then 0 else l.incr[|l.incr| - 1])
  }

  /** A new BASE file; the previous one becomes history. */
  function NewBase(m: Manifest): Manifest {
    m.(base := Some(m.currBase + 1),
       history := (if m.base.Some? then [Base(m.base.value)] else []) + m.history,
       currBase := m.currBase + 1)
  }

  /** A new INCR file at the end of the list. */
  function NewIncr(m: Manifest): Manifest {
    m.(incr := m.incr + [m.currIncr + 1], currIncr := m.currIncr + 1)
  }

  function IncrNames(numbers: seq<nat>): (names: seq<FileName>)
    ensures |names| == |numbers|
    ensures forall i :: 0 <= i < |numbers| ==> names[i] == Incr(numbers[i])
  {
    if numbers == [] then [] else [Incr(numbers[0])] + IncrNames(numbers[1..])
  }

  /** All INCR files but the one being written become history. */
  function MarkRewritten(m: Manifest): Manifest {
    if m.incr == [] then m
    else
      var last := |m.incr| - 1;
      m.(history := IncrNames(m.incr[..last]) + m.history, incr := m.incr[last..])
  }

  predicate Increasing(numbers: seq<nat>) {
    forall i, j :: 0 <= i < j < |numbers| ==> numbers[i] < numbers[j]
  }

  /** A history file is older than every file still in use. */
  predicate Old(l: Listing, name: FileName) {
    match name
    case Base(k) => l.base.Some? && k < l.base.value
    case Incr(k) => l.incr != [] && k < l.incr[0]
  }

  ghost predicate OldHistory(l: Listing) {
    forall name :: name in l.history ==> Old(l, name)
  }

  /** Listed in writing order, with at least the file being written. */
  ghost predicate Loadable(l: Listing) {
    && l.incr != [] && Increasing(l.incr) && l.incr[0] >= 1
    && (l.base.Some? ==> l.base.value >= 1)
    && OldHistory(l)
  }

  lemma NewIncrLoadable(m: Manifest)
    requires Loadable(Text(m)) && m == Load(Text(m))
    ensures Loadable(Text(NewIncr(m))) && NewIncr(m) == Load(Text(NewIncr(m)))
  {
  }

  lemma RewrittenLoadable(m: Manifest)
    requires Loadable(Text(m)) && m == Load(Text(m))
    ensures var r := MarkRewritten(NewBase(m));
            && Loadable(Text(r)) && r == Load(Text(r))
            && r.base == Some(m.currBase + 1) && r.incr == [m.currIncr]
  {
    var b := NewBase(m);
    var r := MarkRewritten(b);
    var last := |m.incr| - 1;
    assert r.incr == [m.incr[last]];
    forall name | name in r.history
      ensures Old(Text(r), name)
    {
      if name in IncrNames(b.incr[..last]) {
        var i :| 0 <= i < last && IncrNames(b.incr[..last])[i] == name;
      } else if name in m.history {
        assert Old(Text(m), name);
      }
    }
  }

  // ---- The manifest object ----

  /** The lists and counters, changed in place by the operations above. */
  class ManifestFile {
    var base: Option<nat>
    var history: seq<FileName>
    var incr: seq<nat>
    var currBase: nat
    var currIncr: nat
    var dirty: bool

    function View(): Manifest
      reads this
    {
      Manifest(base, history, incr, currBase, currIncr)
    }

    constructor Dup(orig: Manifest, dirty: bool)
      ensures View() == orig && this.dirty == dirty
    {
      this.dirty := dirty;
      base, history, incr := orig.base, orig.history, orig.incr;
      currBase, currIncr := orig.currBase, orig.currIncr;
    }

    method GetNewBaseFileName() returns (name: FileName)
      modifies this
      ensures View() == NewBase(old(View())) && name == Base(currBase) && dirty
    {
      if base.Some? {
        history := [Base(base.value)] + history;
      }
      currBase := currBase + 1;
      base := Some(currBase);
      dirty := true;
      name := Base(currBase);
    }

    method GetNewIncrFileName() returns (name: FileName)
      modifies this
      ensures View() == NewIncr(old(View())) && name == Incr(currIncr) && dirty
    {
      currIncr := currIncr + 1;
      incr := incr + [currIncr];
      dirty := true;
      name := Incr(currIncr);
    }

    /** Walk the list from its tail, skipping the file being written. */
    method MarkRewrittenAsHistory()
      modifies this
      ensures View() == MarkRewritten(old(View()))
      ensures old(incr) != [] ==> dirty
    {
      if |incr| == 0 {
        return;
      }
      ghost var last := |incr| - 1;
      var i := |incr| - 2;
      while i >= 0
        invariant -1 <= i < last
        invariant incr == old(incr[..i + 1]) + old(incr[last..])
        invariant history == IncrNames(old(incr[i + 1..last])) + old(history)
        invariant base == old(base) && currBase == old(currBase) && currIncr == old(currIncr)
      {
        assert old(incr[i..last]) == [old(incr[i])] + old(incr[i + 1..last]);
        history := [Incr(incr[i])] + history;
        incr := incr[..i] + incr[i + 1..];
        i := i - 1;
      }
      dirty := true;
    }
  }
}
