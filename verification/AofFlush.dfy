/**
  Flushing the append-only buffer to the current file under short writes, write
  errors and truncations that may fail.

  The file has a write position of its own.  The file opened at server start is in
  append mode and always writes at its end; the files opened by a rewrite are not,
  and truncating such a file does not move its position back.
*/
module AofFlush {
  import opened Numbers

  datatype File = File(
    bytes: seq<byte>,       // on disk
    position: nat,          // of the descriptor
    append: bool,           // opened in append mode
    buffer: seq<byte>,      // not written yet
    size: nat,              // what the server believes the file length to be
    fed: seq<byte>)         // every byte ever fed

  function Zeros(n: nat): (z: seq<byte>)
    ensures |z| == n && forall i :: 0 <= i < n ==> z[i] == 0
  {
    if n == 0 then [] else Zeros(n - 1) + [0]
  }

  /** Writing at or past the end; a gap reads as zeros. */
  function WriteAt(bytes: seq<byte>, position: nat, data: seq<byte>): seq<byte>
    requires position >= |bytes|
  {
    if data == [] then bytes else bytes + Zeros(position - |bytes|) + data
  }

  function Truncate(bytes: seq<byte>, n: nat): seq<byte> {
    if n <= |bytes| then bytes[..n] else bytes + Zeros(n - |bytes|)
  }

  function WritePosition(f: File): nat {
    if f.append then |f.bytes| else f.position
  }

  /** The position is never before the end of the file. */
  predicate Seekable(f: File) {
    f.position >= |f.bytes|
  }

  function Feed(f: File, data: seq<byte>): File {
    f.(buffer := f.buffer + data, fed := f.fed + data)
  }

  /** The file after the first n bytes of the buffer went out. */
  function Written(f: File, n: nat): File
    requires Seekable(f) && n <= |f.buffer|
  {
    var p := WritePosition(f);
    f.(bytes := WriteAt(f.bytes, p, f.buffer[..n]), position := if n == 0 then f.position else p + n)
  }

  /** A flush that wrote n bytes; a short write is cut off again if the truncation succeeds. */
  function Flush(f: File, n: nat, truncated: bool): File
    requires Seekable(f) && n <= |f.buffer|
  {
    var w := Written(f, n);
    if n == |f.buffer| then w.(buffer := [], size := f.size + n)
    else if n == 0 then f
    else if truncated then w.(bytes := Truncate(w.bytes, f.size))
    else w.(buffer := f.buffer[n..], size := f.size + n)
  }

  // ---- What a flush promises ----

  /** Nothing fed is lost or doubled, and the server knows the length of its file. */
  predicate Conserved(f: File) {
    f.bytes + f.buffer == f.fed && |f.bytes| == f.size
  }

  predicate Aligned(f: File) {
    f.append || f.position == |f.bytes|
  }

  /** The bytes that went out stay in the file. */
  predicate Keeps(f: File, n: nat, truncated: bool)
    requires n <= |f.buffer|
  {
    n > 0 && (n == |f.buffer| || !truncated)
  }

  /** The position stays at or behind the end of the file, even when there is a hole in it. */
  lemma FlushSeekable(f: File, n: nat, truncated: bool)
    requires Seekable(f) && f.size <= |f.bytes| && n <= |f.buffer|
    ensures Seekable(Flush(f, n, truncated)) && Flush(f, n, truncated).size <= |Flush(f, n, truncated).bytes|
  {
  }

  /** A flush conserves what was fed exactly when it writes at the end of the file or keeps nothing. */
  lemma FlushConserves(f: File, n: nat, truncated: bool)
    requires Seekable(f) && Conserved(f) && n <= |f.buffer|
    ensures Conserved(Flush(f, n, truncated)) <==> Aligned(f) || !Keeps(f, n, truncated)
  {
    var g := Flush(f, n, truncated);
    var gap := WritePosition(f) - |f.bytes|;
    assert f.buffer == f.buffer[..n] + f.buffer[n..];
    if Keeps(f, n, truncated) {
      assert |g.bytes| == |f.bytes| + gap + n && g.size == f.size + n;
      if gap == 0 {
        assert g.bytes + g.buffer == f.bytes + f.buffer;
      }
    } else if n > 0 {
      assert Truncate(Written(f, n).bytes, f.size) == f.bytes;
    }
  }

  /** The position runs ahead of the file exactly when a short write was cut off outside append mode. */
  lemma FlushAligned(f: File, n: nat, truncated: bool)
    requires Seekable(f) && Conserved(f) && Aligned(f) && n <= |f.buffer|
    ensures Aligned(Flush(f, n, truncated)) <==> f.append || !(0 < n < |f.buffer| && truncated)
  {
    if 0 < n < |f.buffer| && truncated {
      assert Truncate(Written(f, n).bytes, f.size) == f.bytes;
    }
  }

  // ---- Whole runs ----

  datatype Step = FeedBytes(data: seq<byte>) | FlushBytes(written: nat, truncated: bool)

  predicate Enabled(f: File, step: Step) {
    step.FlushBytes? ==> Seekable(f) && step.written <= |f.buffer|
  }

  function Next(f: File, step: Step): File
    requires Enabled(f, step)
  {
    match step
    case FeedBytes(data) => Feed(f, data)
    case FlushBytes(n, truncated) => Flush(f, n, truncated)
  }

  ghost predicate IsRun(f: File, steps: seq<Step>)
    decreases |steps|
  {
    steps == [] || (Enabled(f, steps[0]) && IsRun(Next(f, steps[0]), steps[1..]))
  }

  function After(f: File, steps: seq<Step>): File
    requires IsRun(f, steps)
    decreases |steps|
  {
    if steps == [] then f else After(Next(f, steps[0]), steps[1..])
  }

  /** In append mode every run of feeds and flushes, whatever failed, conserves what was fed. */
  lemma {:induction false} AppendRunConserves(f: File, steps: seq<Step>)
    requires f.append && Seekable(f) && Conserved(f) && IsRun(f, steps)
    ensures Conserved(After(f, steps)) && Seekable(After(f, steps))
    decreases |steps|
  {
    if steps != [] {
      match steps[0]
      case FeedBytes(data) =>
        assert f.bytes + (f.buffer + data) == (f.bytes + f.buffer) + data;
        AppendRunConserves(Feed(f, data), steps[1..]);
      case FlushBytes(n, truncated) =>
        FlushConserves(f, n, truncated);
        FlushSeekable(f, n, truncated);
        AppendRunConserves(Flush(f, n, truncated), steps[1..]);
    }
  }

  /** Nothing fed is lost or doubled at any point of the run. */
  ghost predicate ConservedThroughout(f: File, steps: seq<Step>)
    requires IsRun(f, steps)
    decreases |steps|
  {
    Conserved(f) && (steps == [] || ConservedThroughout(Next(f, steps[0]), steps[1..]))
  }

  /** A short write that is cut off again. */
  predicate Cuts(f: File, step: Step) {
    step.FlushBytes? && 0 < step.written < |f.buffer| && step.truncated
  }

  predicate KeepsBytes(f: File, step: Step) {
    step.FlushBytes? && step.written <= |f.buffer| && Keeps(f, step.written, step.truncated)
  }

  /** After a short write was cut off, no flush leaves bytes in the file; `cut` says that one was before the run. */
  ghost predicate NothingAfterCut(f: File, steps: seq<Step>, cut: bool)
    requires IsRun(f, steps)
    decreases |steps|
  {
    steps == [] || (!(cut && KeepsBytes(f, steps[0]))
                    && NothingAfterCut(Next(f, steps[0]), steps[1..], cut || Cuts(f, steps[0])))
  }

  /** Outside append mode the position is ahead of the file from the first cut on. */
  lemma StepAligned(f: File, step: Step)
    requires !f.append && Seekable(f) && Conserved(f) && Enabled(f, step) && Conserved(Next(f, step))
    ensures Seekable(Next(f, step)) && !Next(f, step).append
    ensures Aligned(Next(f, step)) <==> Aligned(f) && !Cuts(f, step)
  {
    match step
    case FeedBytes(data) =>
    case FlushBytes(n, truncated) =>
      FlushSeekable(f, n, truncated);
      if Aligned(f) {
        FlushAligned(f, n, truncated);
      } else {
        FlushConserves(f, n, truncated);
        if n > 0 {
          assert Truncate(Written(f, n).bytes, f.size) == f.bytes;
        }
      }
  }

  lemma StepConserves(f: File, step: Step)
    requires Seekable(f) && Conserved(f) && Enabled(f, step)
    ensures Conserved(Next(f, step)) <==> Aligned(f) || !KeepsBytes(f, step)
  {
    match step
    case FeedBytes(data) =>
      assert f.bytes + (f.buffer + data) == (f.bytes + f.buffer) + data;
    case FlushBytes(n, truncated) =>
      FlushConserves(f, n, truncated);
  }

  /**
    Exactly which runs conserve what was fed outside append mode: those in which, once a
    short write has been cut off, no later flush leaves bytes in the file.
  */
  lemma {:induction false} RunConservesExactly(f: File, steps: seq<Step>)
    requires !f.append && Seekable(f) && Conserved(f) && IsRun(f, steps)
    ensures ConservedThroughout(f, steps) <==> NothingAfterCut(f, steps, !Aligned(f))
    decreases |steps|
  {
    hide Conserved, Aligned, Next, KeepsBytes, Cuts, Seekable, Enabled;
    if steps != [] {
      var g := Next(f, steps[0]);
      StepConserves(f, steps[0]);
      if Conserved(g) {
        StepAligned(f, steps[0]);
        RunConservesExactly(g, steps[1..]);
      } else {
        NotThroughout(g, steps[1..]);
      }
    }
  }

  lemma NotThroughout(f: File, steps: seq<Step>)
    requires IsRun(f, steps) && !Conserved(f)
    ensures !ConservedThroughout(f, steps)
  {
  }

  /** In particular a run in which no short write is cut off conserves what was fed. */
  lemma UncutRunConserves(f: File, steps: seq<Step>)
    requires !f.append && Aligned(f) && Seekable(f) && Conserved(f) && IsRun(f, steps)
    requires forall step :: step in steps && step.FlushBytes? ==> !step.truncated
    ensures ConservedThroughout(f, steps)
  {
    RunConservesExactly(f, steps);
    NoCut(f, steps);
  }

  lemma {:induction false} NoCut(f: File, steps: seq<Step>)
    requires IsRun(f, steps) && forall step :: step in steps && step.FlushBytes? ==> !step.truncated
    ensures NothingAfterCut(f, steps, false)
    decreases |steps|
  {
    if steps != [] {
      assert steps[0] in steps && forall step :: step in steps[1..] ==> step in steps;
      NoCut(Next(f, steps[0]), steps[1..]);
    }
  }

  /** The hole: outside append mode, a short write that is cut off leaves zeros before the next bytes. */
  lemma CutShortWriteLeavesHole(f: File, n: nat)
    requires !f.append && Seekable(f) && Conserved(f) && Aligned(f) && 0 < n < |f.buffer|
    ensures var g := Flush(f, n, true);
            && Conserved(g) && Seekable(g)
            && Flush(g, |g.buffer|, false).bytes == f.bytes + Zeros(n) + f.buffer
            && !Conserved(Flush(g, |g.buffer|, false))
  {
    var g := Flush(f, n, true);
    CutState(f, n);
    FlushConserves(g, |g.buffer|, false);
    assert g.buffer[..|g.buffer|] == g.buffer;
  }

  lemma CutState(f: File, n: nat)
    requires !f.append && Conserved(f) && Aligned(f) && 0 < n < |f.buffer|
    ensures Flush(f, n, true) == f.(position := |f.bytes| + n)
  {
    assert Truncate(Written(f, n).bytes, f.size) == f.bytes;
  }

  // ---- The writer ----

  /** What one write call does. */
  datatype WriteResult = Wrote(count: nat) | Interrupted | Failed

  /** How many of `left` bytes go out before a write fails. */
  function BytesOut(results: seq<WriteResult>, left: nat): (n: nat)
    ensures n <= left
    decreases |results|
  {
    if left == 0 || results == [] || results[0].Failed? then 0
    else if results[0].Interrupted? then BytesOut(results[1..], left)
    else
      var k := if results[0].count <= left then results[0].count else left;
      k + BytesOut(results[1..], left - k)
  }

  lemma BytesOutStep(results: seq<WriteResult>, i: nat, left: nat)
    requires i <= |results|
    ensures left == 0 || i == |results| || results[i].Failed? ==> BytesOut(results[i..], left) == 0
    ensures left > 0 && i < |results| && results[i].Interrupted? ==>
              BytesOut(results[i..], left) == BytesOut(results[i + 1..], left)
    ensures left > 0 && i < |results| && results[i].Wrote? ==>
              var k := if results[i].count <= left then results[i].count else left;
              BytesOut(results[i..], left) == k + BytesOut(results[i + 1..], left - k)
  {
    if i < |results| {
      assert results[i..][1..] == results[i + 1..];
    }
  }

  datatype Policy = Always | EverySecond | Never

  /** Writing in pieces is writing at once. */
  lemma WrittenInPieces(f: File, n: nat, k: nat)
    requires Seekable(f) && n + k <= |f.buffer|
    ensures var w := Written(f, n);
            && Seekable(w)
            && w.(bytes := WriteAt(w.bytes, WritePosition(w), f.buffer[n..n + k]),
                  position := if k == 0 then w.position else WritePosition(w) + k)
               == Written(f, n + k)
  {
    assert f.buffer[..n + k] == f.buffer[..n] + f.buffer[n..n + k];
    if n == 0 {
      assert f.buffer[..0] == [];
    }
  }

  lemma NothingWritten(f: File)
    requires Seekable(f)
    ensures Written(f, 0) == f
  {
    assert f.buffer[..0] == [];
  }

  class AppendOnlyFile {
    var bytes: seq<byte>
    var position: nat
    const append: bool
    var buffer: seq<byte>
    var lastIncrSize: nat
    var lastWriteOk: bool
    ghost var fed: seq<byte>

    ghost function View(): File
      reads this
    {
      File(bytes, position, append, buffer, lastIncrSize, fed)
    }

    constructor (append: bool)
      ensures View() == File([], 0, append, [], 0, []) && lastWriteOk
    {
      bytes, position, buffer, lastIncrSize, lastWriteOk, fed := [], 0, [], 0, true, [];
      this.append := append;
    }

    method FeedBuffer(data: seq<byte>)
      modifies this`buffer, this`fed
      ensures View() == Feed(old(View()), data)
    {
      buffer := buffer + data;
      fed := fed + data;
    }

    /** One write call that takes k bytes. */
    method WritePiece(total: nat, k: nat, ghost before: File)
      requires Seekable(before) && before.buffer == buffer && total + k <= |buffer|
      requires View() == Written(before, total)
      modifies this`bytes, this`position
      ensures View() == Written(before, total + k)
    {
      WrittenInPieces(before, total, k);
      var at := if append then |bytes| else position;
      bytes := WriteAt(bytes, at, buffer[total..total + k]);
      position := if k == 0 then position else at + k;
    }

    /** Retry short and interrupted writes; -1 when nothing went out at all. */
    method Write(results: seq<WriteResult>) returns (nwritten: int)
      requires Seekable(View())
      modifies this`bytes, this`position
      ensures var n := BytesOut(results, |buffer|);
              && nwritten == (if n == 0 && buffer != [] then -1 else n)
              && View() == Written(old(View()), n)
    {
      hide Written, BytesOut, Seekable;
      ghost var before := View();
      NothingWritten(before);
      var total: nat, i: nat := 0, 0;
      assert results[0..] == results;
      while total < |buffer|
        invariant total <= |buffer| && i <= |results|
        invariant View() == Written(before, total)
        invariant total + BytesOut(results[i..], |buffer| - total) == BytesOut(results, |buffer|)
        decreases |results| - i
      {
        BytesOutStep(results, i, |buffer| - total);
        if i == |results| || results[i].Failed? {
          break;
        }
        if results[i].Wrote? {
          var left := |buffer| - total;
          var k := if results[i].count <= left then results[i].count else left;
          WritePiece(total, k, before);
          total := total + k;
        }
        i := i + 1;
      }
      BytesOutStep(results, i, |buffer| - total);
      nwritten := if total == 0 && |buffer| > 0 then -1 else total;
    }

    /**
      Write the buffer out.  The result is false when the server exits because the
      policy allows no write error.
    */
    method FlushBuffer(policy: Policy, results: seq<WriteResult>, truncated: bool) returns (running: bool)
      requires Seekable(View())
      modifies this`bytes, this`position, this`buffer, this`lastIncrSize, this`lastWriteOk
      ensures running ==> View() == Flush(old(View()), BytesOut(results, |old(buffer)|), truncated)
      ensures running && old(buffer) == [] ==> lastWriteOk == old(lastWriteOk)
      ensures running && old(buffer) != [] ==> lastWriteOk == (BytesOut(results, |old(buffer)|) == |old(buffer)|)
      ensures running <==> policy != Always || BytesOut(results, |old(buffer)|) == |old(buffer)|
    {
      if |buffer| == 0 {
        assert Flush(View(), 0, truncated) == View();
        return true;
      }
      ghost var before := View();
      var nwritten := Write(results);
      ghost var n := BytesOut(results, |buffer|);
      if nwritten != |buffer| {
        if nwritten != -1 && truncated {
          bytes := Truncate(bytes, lastIncrSize);
          nwritten := -1;
        }
        if policy == Always {
          return false;
        }
        lastWriteOk := false;
        if nwritten > 0 {
          lastIncrSize := lastIncrSize + nwritten;
          buffer := buffer[nwritten..];
        }
        assert View() == Flush(before, n, truncated);
        return true;
      }
      lastWriteOk := true;
      lastIncrSize := lastIncrSize + nwritten;
      buffer := [];
      assert View() == Flush(before, n, truncated);
      running := true;
    }
  }
}
