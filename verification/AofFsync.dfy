/**
  When a replication offset may be called durable: the main thread and the AOF
  background worker, interleaved step by step.

  The main thread feeds commands, writes the buffer out and queues fsync jobs; the
  worker takes jobs in order and publishes the offset each job carries.  The main
  thread may also publish its own offset when it finds nothing left to sync.
*/
module AofFsync {

  /** A job of the worker queue; `covered` is the file size when it was queued. */
  datatype Job = Fsync(offset: nat, covered: nat) | Other

  /** A fed command: the replication offset after it and the bytes fed by then. */
  datatype Mark = Mark(offset: nat, fed: nat)

  datatype Worker = Waiting | Fetched | Synced | Published

  datatype Main = Running | SawNoJobs | JustSynced

  datatype State = State(
    replOffset: nat,       // replication offset of the main thread
    fed: nat,              // bytes fed to the append-only buffer so far
    buffered: nat,         // of these, not yet written
    size: nat,             // of these, written to the file
    fsyncOffset: nat,      // file size at the last fsync, queued or done
    durable: nat,          // of these, on stable storage
    pending: nat,          // the published offset
    queue: seq<Job>,
    counter: nat,          // fsync jobs not finished
    worker: Worker,
    main: Main,
    marks: seq<Mark>)

  datatype Step =
    | Feed(bytes: nat, advance: nat)
    | Write(bytes: nat)
    | QueueFsync
    | QueueOther
    | CheckIdle            // buffer empty, all synced or queued: are jobs pending?
    | PublishIdle
    | MainFsync            // policy "always"
    | MainPublish
    | WorkerFetch
    | WorkerFsync(ok: bool)
    | WorkerPublish
    | WorkerRemove

  predicate Enabled(s: State, step: Step) {
    match step
    case Feed(_, advance) => s.main == Running && advance > 0
    case Write(n) => s.main == Running && n <= s.buffered
    case QueueFsync => s.main == Running && s.buffered == 0
    case QueueOther => s.main == Running
    case CheckIdle => s.main == Running && s.buffered == 0 && s.fsyncOffset == s.size
    case PublishIdle => s.main == SawNoJobs
    case MainFsync => s.main == Running && s.buffered == 0
    case MainPublish => s.main == JustSynced
    case WorkerFetch => s.worker == Waiting && s.queue != []
    case WorkerFsync(_) => s.worker == Fetched && s.queue != []
    case WorkerPublish => s.worker == Synced && s.queue != []
    case WorkerRemove => s.worker == Published && s.queue != [] && (s.queue[0].Fsync? ==> s.counter > 0)
  }

  function Next(s: State, step: Step): State
    requires Enabled(s, step)
  {
    match step
    case Feed(n, advance) =>
      s.(replOffset := s.replOffset + advance, fed := s.fed + n, buffered := s.buffered + n,
         marks := s.marks + [Mark(s.replOffset + advance, s.fed + n)])
    case Write(n) =>
      s.(buffered := s.buffered - n, size := s.size + n)
    case QueueFsync =>
      s.(queue := s.queue + [Fsync(s.replOffset, s.size)], counter := s.counter + 1, fsyncOffset := s.size)
    case QueueOther =>
      s.(queue := s.queue + [Other])
    case CheckIdle =>
      if s.counter == 0 then s.(main := SawNoJobs) else s
    case PublishIdle =>
      s.(pending := s.replOffset, main := Running)
    case MainFsync =>
      s.(durable := s.size, fsyncOffset := s.size, main := JustSynced)
    case MainPublish =>
      s.(pending := s.replOffset, main := Running)
    case WorkerFetch =>
      s.(worker := Fetched)
    case WorkerFsync(ok) =>
      if s.queue[0].Other? then s.(worker := Published)
      else if ok then s.(durable := s.size, worker := Synced)
      else s.(worker := Published)
    case WorkerPublish =>
      if s.queue[0].Fsync? then s.(pending := s.queue[0].offset, worker := Published)
      else s.(worker := Published)
    case WorkerRemove =>
      s.(queue := s.queue[1..], counter := if s.queue[0].Fsync? then s.counter - 1 else s.counter, worker := Waiting)
  }

  // ---- What must never fail ----

  /** Every command up to this offset has its bytes on stable storage. */
  ghost predicate DurableUpTo(s: State, offset: nat) {
    forall m :: m in s.marks && m.offset <= offset ==> m.fed <= s.durable
  }

  ghost predicate Safe(s: State) {
    DurableUpTo(s, s.pending)
  }

  // ---- The invariant ----

  function FsyncJobs(queue: seq<Job>): nat {
    if queue == [] then 0 else (if queue[0].Fsync? then 1 else 0) + FsyncJobs(queue[1..])
  }

  /** What will be durable once the queue is processed. */
  function Promised(queue: seq<Job>, durable: nat): nat {
    if queue == [] then durable
    else
      var rest := Promised(queue[1..], durable);
      if queue[0].Fsync? && queue[0].covered > rest then queue[0].covered else rest
  }

  ghost predicate JobSound(s: State, j: Job) {
    j.Fsync? ==>
      && j.covered <= s.size && j.offset <= s.replOffset
      && forall m :: m in s.marks && m.offset <= j.offset ==> m.fed <= j.covered
  }

  ghost predicate Accounts(s: State) {
    && s.size + s.buffered == s.fed
    && s.durable <= s.size && s.fsyncOffset <= s.size && s.pending <= s.replOffset
    && s.counter == FsyncJobs(s.queue)
    && forall m :: m in s.marks ==> m.fed <= s.fed && m.offset <= s.replOffset
  }

  ghost predicate Inv(s: State) {
    && Accounts(s)
    && (forall j :: j in s.queue ==> JobSound(s, j))
    && s.fsyncOffset <= Promised(s.queue, s.durable)
    && (s.worker != Waiting ==> s.queue != [])
    && (s.worker in {Synced, Published} && s.queue[0].Fsync? ==> s.queue[0].covered <= s.durable)
    && (s.main == SawNoJobs ==> s.buffered == 0 && s.fsyncOffset == s.size && s.counter == 0)
    && (s.main == JustSynced ==> s.buffered == 0 && s.durable == s.size)
    && Safe(s)
  }

  lemma {:induction false} PromisedGrows(queue: seq<Job>, durable: nat, durable': nat)
    requires durable <= durable'
    ensures Promised(queue, durable) <= Promised(queue, durable')
    ensures durable <= Promised(queue, durable)
    decreases |queue|
  {
    if queue != [] {
      PromisedGrows(queue[1..], durable, durable');
    }
  }

  lemma {:induction false} PromisedAppend(queue: seq<Job>, j: Job, durable: nat)
    ensures FsyncJobs(queue + [j]) == FsyncJobs(queue) + if j.Fsync? then 1 else 0
    ensures Promised(queue, durable) <= Promised(queue + [j], durable)
    ensures j.Fsync? ==> j.covered <= Promised(queue + [j], durable)
    decreases |queue|
  {
    if queue != [] {
      PromisedAppend(queue[1..], j, durable);
      assert (queue + [j])[1..] == queue[1..] + [j];
    }
  }

  lemma {:induction false} NothingPromised(queue: seq<Job>, durable: nat)
    requires FsyncJobs(queue) == 0
    ensures Promised(queue, durable) == durable
    decreases |queue|
  {
    if queue != [] {
      NothingPromised(queue[1..], durable);
    }
  }

  /** With no fsync failure, every step of either thread keeps the invariant. */
  lemma MainKeeps(s: State, step: Step)
    requires Inv(s) && Enabled(s, step)
    requires step.Feed? || step.Write? || step.CheckIdle? || step.PublishIdle? || step.MainFsync? || step.MainPublish?
    ensures Inv(Next(s, step))
  {
    NothingPromisedIfIdle(s);
    PromisedGrows(s.queue, s.durable, s.size);
    PromisedGrows(s.queue, s.size, s.size);
  }

  lemma NothingPromisedIfIdle(s: State)
    ensures FsyncJobs(s.queue) == 0 ==> Promised(s.queue, s.durable) == s.durable
  {
    if FsyncJobs(s.queue) == 0 {
      NothingPromised(s.queue, s.durable);
    }
  }

  lemma QueueKeeps(s: State, step: Step)
    requires Inv(s) && Enabled(s, step)
    requires step.QueueFsync? || step.QueueOther?
    ensures Inv(Next(s, step))
  {
    var j := if step.QueueFsync? then Fsync(s.replOffset, s.size) else Other;
    PromisedAppend(s.queue, j, s.durable);
  }

  lemma WorkerKeeps(s: State, step: Step)
    requires Inv(s) && Enabled(s, step)
    requires step.WorkerFetch? || step == WorkerFsync(true) || step.WorkerPublish? || step.WorkerRemove?
    ensures Inv(Next(s, step))
  {
    PromisedGrows(s.queue, s.durable, s.size);
    if s.queue != [] {
      assert s.queue[0] in s.queue;
      PromisedGrows(s.queue[1..], s.durable, s.durable);
      assert forall j :: j in s.queue[1..] ==> j in s.queue;
    }
  }

  // ---- Main results ----

  ghost predicate IsRun(s: State, steps: seq<Step>)
    decreases |steps|
  {
    steps == [] || (Enabled(s, steps[0]) && IsRun(Next(s, steps[0]), steps[1..]))
  }

  function After(s: State, steps: seq<Step>): State
    requires IsRun(s, steps)
    decreases |steps|
  {
    if steps == [] then s else After(Next(s, steps[0]), steps[1..])
  }

  /** A file just opened: whatever it holds counts as durable. */
  function Start(replOffset: nat, size: nat): State {
    State(replOffset, size, 0, size, size, size, 0, [], 0, Waiting, Running, [])
  }

  lemma {:induction false} RunKeeps(s: State, steps: seq<Step>)
    requires Inv(s) && IsRun(s, steps) && WorkerFsync(false) !in steps
    ensures Inv(After(s, steps))
    decreases |steps|
  {
    hide Inv, Next, Enabled;
    if steps != [] {
      var step := steps[0];
      assert step in steps;
      if step.QueueFsync? || step.QueueOther? {
        QueueKeeps(s, step);
      } else if step.WorkerFetch? || step.WorkerFsync? || step.WorkerPublish? || step.WorkerRemove? {
        WorkerKeeps(s, step);
      } else {
        MainKeeps(s, step);
      }
      RunKeeps(Next(s, step), steps[1..]);
    }
  }

  /**
    Under every interleaving of the two threads, with no fsync failure, the published
    offset is never ahead of what is durable; and when the worker has drained its
    queue, everything handed to it is durable.
  */
  lemma PublishedIsDurable(replOffset: nat, size: nat, steps: seq<Step>)
    requires IsRun(Start(replOffset, size), steps) && WorkerFsync(false) !in steps
    ensures var s := After(Start(replOffset, size), steps);
            && DurableUpTo(s, s.pending)
            && (s.queue == [] ==> s.fsyncOffset <= s.durable)
            && s.counter == FsyncJobs(s.queue)
  {
    RunKeeps(Start(replOffset, size), steps);
  }

  // ---- Runs in which fsyncs fail ----

  /** The last command fed is the last one marked; without any, nothing is waiting to be synced. */
  ghost predicate LastMarked(s: State) {
    if s.marks == [] then s.durable == s.fed else s.marks[|s.marks| - 1] == Mark(s.replOffset, s.fed)
  }

  /** What holds in every run, failures included. */
  ghost predicate Weak(s: State) {
    && Accounts(s) && LastMarked(s)
    && (forall j :: j in s.queue ==> JobSound(s, j))
    && (s.worker != Waiting ==> s.queue != [])
    && (s.worker == Synced && s.queue[0].Fsync? ==> s.queue[0].covered <= s.durable)
    && (s.main == SawNoJobs ==> s.buffered == 0)
    && (s.main == JustSynced ==> s.buffered == 0 && s.durable == s.size)
  }

  /** The main thread, having seen no job, publishes an offset whose bytes are not all synced. */
  ghost predicate PublishesUnsynced(s: State, step: Step) {
    step.PublishIdle? && s.durable < s.size
  }

  lemma WeakMain(s: State, step: Step)
    requires Weak(s) && Enabled(s, step)
    requires step.Feed? || step.Write? || step.CheckIdle? || step.PublishIdle? || step.MainFsync? || step.MainPublish?
    ensures Weak(Next(s, step))
    ensures Safe(s) ==> (Safe(Next(s, step)) <==> !PublishesUnsynced(s, step))
  {
    if s.marks != [] {
      assert s.marks[|s.marks| - 1] in s.marks;
    }
  }

  lemma WeakQueue(s: State, step: Step)
    requires Weak(s) && Enabled(s, step)
    requires step.QueueFsync? || step.QueueOther?
    ensures Weak(Next(s, step))
    ensures Safe(Next(s, step)) <==> Safe(s)
  {
    var j := if step.QueueFsync? then Fsync(s.replOffset, s.size) else Other;
    PromisedAppend(s.queue, j, s.durable);
    if s.queue != [] {
      assert (s.queue + [j])[0] == s.queue[0];
    }
  }

  lemma WeakWorker(s: State, step: Step)
    requires Weak(s) && Enabled(s, step)
    requires step.WorkerFetch? || step.WorkerFsync? || step.WorkerPublish? || step.WorkerRemove?
    ensures Weak(Next(s, step))
    ensures Safe(s) ==> Safe(Next(s, step))
  {
    if s.queue != [] {
      assert s.queue[0] in s.queue;
      assert forall j :: j in s.queue[1..] ==> j in s.queue;
    }
  }

  /** One step, failed fsyncs included, breaks the promise exactly when the main thread publishes unsynced bytes. */
  lemma StepSafeExactly(s: State, step: Step)
    requires Weak(s) && Enabled(s, step)
    ensures Weak(Next(s, step))
    ensures Safe(s) ==> (Safe(Next(s, step)) <==> !PublishesUnsynced(s, step))
  {
    hide Weak, Safe, Next, Enabled;
    if step.QueueFsync? || step.QueueOther? {
      WeakQueue(s, step);
    } else if step.WorkerFetch? || step.WorkerFsync? || step.WorkerPublish? || step.WorkerRemove? {
      WeakWorker(s, step);
    } else {
      WeakMain(s, step);
    }
  }

  ghost predicate SafeThroughout(s: State, steps: seq<Step>)
    requires IsRun(s, steps)
    decreases |steps|
  {
    Safe(s) && (steps == [] || SafeThroughout(Next(s, steps[0]), steps[1..]))
  }

  ghost predicate NeverPublishesUnsynced(s: State, steps: seq<Step>)
    requires IsRun(s, steps)
    decreases |steps|
  {
    steps == [] || (!PublishesUnsynced(s, steps[0]) && NeverPublishesUnsynced(Next(s, steps[0]), steps[1..]))
  }

  lemma {:induction false} RunSafeExactly(s: State, steps: seq<Step>)
    requires Weak(s) && Safe(s) && IsRun(s, steps)
    ensures SafeThroughout(s, steps) <==> NeverPublishesUnsynced(s, steps)
    decreases |steps|
  {
    hide Weak, Safe, Next, Enabled, PublishesUnsynced;
    if steps != [] {
      StepSafeExactly(s, steps[0]);
      if Safe(Next(s, steps[0])) {
        RunSafeExactly(Next(s, steps[0]), steps[1..]);
      }
    }
  }

  /** Of the steps so far: bytes were written, and an fsync failed, since the last fsync that worked. */
  datatype History = History(dirty: bool, failed: bool)

  const CLEAN := History(false, false)

  predicate IsFsync(s: State, step: Step) {
    step.MainFsync? || (step.WorkerFsync? && s.queue != [] && s.queue[0].Fsync?)
  }

  function Recorded(h: History, s: State, step: Step): History {
    if IsFsync(s, step) then
      if step == WorkerFsync(false) then h.(failed := true) else CLEAN
    else if step.Write? && step.bytes > 0 then h.(dirty := true)
    else h
  }

  /** The main thread never publishes, on seeing no job, what an fsync failed to sync and none has synced since. */
  predicate NeverPublishesFailed(h: History, s: State, steps: seq<Step>)
    requires IsRun(s, steps)
    decreases |steps|
  {
    steps == []
    || (!(steps[0].PublishIdle? && h.dirty && h.failed)
        && NeverPublishesFailed(Recorded(h, s, steps[0]), Next(s, steps[0]), steps[1..]))
  }

  /** The history tells what is not synced, and without a failure all of it is still to be synced by a job. */
  ghost predicate Tracks(h: History, s: State) {
    && (h.dirty <==> s.durable < s.size)
    && (s.main == SawNoJobs ==> s.fsyncOffset == s.size && s.counter == 0)
    && (!h.failed ==>
          && s.fsyncOffset <= Promised(s.queue, s.durable)
          && (s.worker in {Synced, Published} && s.queue != [] && s.queue[0].Fsync? ==>
                s.queue[0].covered <= s.durable))
  }

  lemma TracksMain(h: History, s: State, step: Step)
    requires Weak(s) && Tracks(h, s) && Enabled(s, step)
    requires step.Feed? || step.Write? || step.CheckIdle? || step.PublishIdle? || step.MainFsync? || step.MainPublish?
    ensures Tracks(Recorded(h, s, step), Next(s, step))
  {
    PromisedGrows(s.queue, s.durable, s.size);
    PromisedGrows(s.queue, s.size, s.size);
    if s.queue != [] {
      assert s.queue[0] in s.queue;
    }
  }

  lemma TracksQueue(h: History, s: State, step: Step)
    requires Weak(s) && Tracks(h, s) && Enabled(s, step)
    requires step.QueueFsync? || step.QueueOther?
    ensures Tracks(Recorded(h, s, step), Next(s, step))
  {
    var j := if step.QueueFsync? then Fsync(s.replOffset, s.size) else Other;
    PromisedAppend(s.queue, j, s.durable);
    if s.queue != [] {
      assert (s.queue + [j])[0] == s.queue[0];
    }
  }

  lemma TracksWorker(h: History, s: State, step: Step)
    requires Weak(s) && Tracks(h, s) && Enabled(s, step)
    requires step.WorkerFetch? || step.WorkerFsync? || step.WorkerPublish? || step.WorkerRemove?
    ensures Tracks(Recorded(h, s, step), Next(s, step))
  {
    PromisedGrows(s.queue, s.durable, s.size);
    PromisedGrows(s.queue, s.size, s.size);
    assert s.queue[0] in s.queue;
    PromisedGrows(s.queue[1..], s.durable, s.durable);
  }

  lemma StepTracks(h: History, s: State, step: Step)
    requires Weak(s) && Tracks(h, s) && Enabled(s, step)
    ensures Tracks(Recorded(h, s, step), Next(s, step))
    ensures PublishesUnsynced(s, step) <==> step.PublishIdle? && h.dirty && h.failed
  {
    if step.PublishIdle? && s.counter == 0 {
      NothingPromised(s.queue, s.durable);
    }
    hide Weak, Next, Recorded;
    if step.QueueFsync? || step.QueueOther? {
      TracksQueue(h, s, step);
    } else if step.WorkerFetch? || step.WorkerFsync? || step.WorkerPublish? || step.WorkerRemove? {
      TracksWorker(h, s, step);
    } else {
      TracksMain(h, s, step);
    }
  }

  lemma {:induction false} SameCondition(h: History, s: State, steps: seq<Step>)
    requires Weak(s) && Tracks(h, s) && IsRun(s, steps)
    ensures NeverPublishesFailed(h, s, steps) <==> NeverPublishesUnsynced(s, steps)
    decreases |steps|
  {
    hide Weak, Tracks, Next, Enabled, PublishesUnsynced, Recorded, Safe;
    if steps != [] {
      StepTracks(h, s, steps[0]);
      StepSafeExactly(s, steps[0]);
      SameCondition(Recorded(h, s, steps[0]), Next(s, steps[0]), steps[1..]);
    }
  }

  /**
    Over every interleaving, with any fsyncs failing: the published offset is durable at
    every point if and only if the main thread never publishes, on seeing no job pending,
    after an fsync of bytes written since the last good one has failed.
  */
  lemma PublishedIsDurableExactly(replOffset: nat, size: nat, steps: seq<Step>)
    requires IsRun(Start(replOffset, size), steps)
    ensures SafeThroughout(Start(replOffset, size), steps)
       <==> NeverPublishesFailed(CLEAN, Start(replOffset, size), steps)
  {
    RunSafeExactly(Start(replOffset, size), steps);
    SameCondition(CLEAN, Start(replOffset, size), steps);
  }

  /**
    How that happens.  The main thread takes the bytes of a queued job for
    synced.  Once the queue is empty it publishes its own offset whether or not the
    last fsync worked, which is right exactly when it did or nothing was left to sync.
  */
  lemma FailedFsyncExact(s: State, ok: bool)
    requires Inv(s) && s.main == Running && s.worker == Fetched
    requires s.queue == [Fsync(s.replOffset, s.size)] && s.buffered == 0 && s.fsyncOffset == s.size
    requires s.marks != [] && s.marks[|s.marks| - 1] == Mark(s.replOffset, s.fed)
    ensures var published := if ok then [WorkerPublish] else [];
            var steps := [WorkerFsync(ok)] + published + [WorkerRemove, CheckIdle, PublishIdle];
            && IsRun(s, steps)
            && (Safe(After(s, steps)) <==> ok || s.durable == s.size)
  {
    assert FsyncJobs(s.queue) == 1 by { assert s.queue[1..] == []; }
    var t := Next(s, WorkerFsync(ok));
    var u := if ok then Next(t, WorkerPublish) else t;
    var v := Next(u, WorkerRemove);
    var w := Next(v, CheckIdle);
    var x := Next(w, PublishIdle);
    assert s.marks[|s.marks| - 1] in s.marks;
    RunOfThree(u, WorkerRemove, CheckIdle, PublishIdle);
    var tail := [WorkerRemove, CheckIdle, PublishIdle];
    if ok {
      RunCons(t, WorkerPublish, tail);
      RunCons(s, WorkerFsync(true), [WorkerPublish] + tail);
      assert [WorkerFsync(true)] + [WorkerPublish] + tail == [WorkerFsync(true)] + ([WorkerPublish] + tail);
    } else {
      RunCons(s, WorkerFsync(false), tail);
      assert [WorkerFsync(false)] + [] + tail == [WorkerFsync(false)] + tail;
    }
  }

  lemma RunCons(s: State, step: Step, steps: seq<Step>)
    requires Enabled(s, step) && IsRun(Next(s, step), steps)
    ensures IsRun(s, [step] + steps)
    ensures After(s, [step] + steps) == After(Next(s, step), steps)
  {
    hide Enabled, Next;
    assert ([step] + steps)[1..] == steps;
  }

  lemma RunOfThree(s: State, a: Step, b: Step, c: Step)
    requires Enabled(s, a) && Enabled(Next(s, a), b) && Enabled(Next(Next(s, a), b), c)
    ensures IsRun(s, [a, b, c]) && After(s, [a, b, c]) == Next(Next(Next(s, a), b), c)
  {
    hide Enabled, Next;
    var last := Next(Next(Next(s, a), b), c);
    assert IsRun(last, []) && After(last, []) == last;
    RunCons(Next(Next(s, a), b), c, []);
    assert [c] + [] == [c];
    RunCons(Next(s, a), b, [c]);
    assert [b] + [c] == [b, c];
    RunCons(s, a, [b, c]);
    assert [a] + [b, c] == [a, b, c];
  }
}
