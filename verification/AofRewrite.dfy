/**
  Append-only persistence as a protocol between the server, its rewriting child and
  the disk.

  Commands are fed to a buffer and flushed to the current INCR file; a rewrite opens
  a new INCR file, forks a child that writes a snapshot, and then swaps the snapshot
  in as the new BASE.  Every action that touches the disk is a step of its own, and
  the server may crash and restart between any two steps.

  A dataset is any type with any way to execute a command on it.
*/
module AofRewrite {
  import opened Wrappers
  import opened AofManifest

  function Execute<D, C>(exec: (D, C) -> D, d: D, commands: seq<C>): D {
    if commands == [] then d
    else exec(Execute(exec, d, commands[..|commands| - 1]), commands[|commands| - 1])
  }

  lemma {:induction false} ExecuteAppend<D, C>(exec: (D, C) -> D, d: D, a: seq<C>, b: seq<C>)
    ensures Execute(exec, d, a + b) == Execute(exec, Execute(exec, d, a), b)
    decreases |b|
  {
    if b == [] {
      assert a + b == a;
    } else {
      ExecuteAppend(exec, d, a, b[..|b| - 1]);
      assert (a + b)[..|a + b| - 1] == a + b[..|b| - 1];
    }
  }

  // ---- The disk ----

  datatype Disk<D, C> = Disk(bases: map<nat, D>, incrs: map<nat, seq<C>>, listing: Listing)

  function Contents<C>(incrs: map<nat, seq<C>>, numbers: seq<nat>): seq<C>
    requires forall n :: n in numbers ==> n in incrs
  {
    if numbers == [] then []
    else Contents(incrs, numbers[..|numbers| - 1]) + incrs[numbers[|numbers| - 1]]
  }

  predicate FilesExist<D, C>(disk: Disk<D, C>) {
    && (disk.listing.base.Some? ==> disk.listing.base.value in disk.bases)
    && (forall n :: n in disk.listing.incr ==> n in disk.incrs)
  }

  /** What loading the files listed on disk rebuilds: the BASE, then the INCR files in order. */
  function Recover<D, C>(exec: (D, C) -> D, empty: D, disk: Disk<D, C>): Option<D> {
    if !FilesExist(disk) then None
    else
      var base := if disk.listing.base.Some? then disk.bases[disk.listing.base.value] else empty;
      Some(Execute(exec, base, Contents(disk.incrs, disk.listing.incr)))
  }

  // ---- The server ----

  datatype Phase =
    | Idle          // serving commands
    | Opened        // the next INCR file exists, the manifest does not list it yet
    | Forking       // writing to the new INCR file, the child is not forked yet
    | Renamed       // the child's snapshot has its BASE name, the manifest does not list it yet
    | Deleting      // removing history files

  datatype State<D, C> = State(
    disk: Disk<D, C>, memory: Manifest, fd: nat, buffer: seq<C>, data: D,
    child: Option<D>, phase: Phase, flushed: seq<C>)

  datatype Step<C> =
    | Feed(command: C)
    | Flush(count: nat)
    | OpenIncr(created: bool)
    | PersistIncr(written: bool)
    | Fork(forked: bool)
    | ChildFailed
    | RenameBase(renamed: bool)
    | PersistBase(written: bool)
    | DeleteHistory
    | PersistHistory(written: bool)
    | KeepHistory
    | Restart

  predicate Enabled<D, C>(s: State<D, C>, step: Step<C>) {
    match step
    case Feed(_) => s.phase == Idle
    case Flush(n) => s.phase == Idle && n <= |s.buffer| && s.fd in s.disk.incrs
    case OpenIncr(_) => s.phase == Idle && s.child.None?
    case PersistIncr(_) => s.phase == Opened
    case Fork(_) => s.phase == Forking
    case ChildFailed => s.phase == Idle && s.child.Some?
    case RenameBase(_) => s.phase == Idle && s.child.Some?
    case PersistBase(_) => s.phase == Renamed
    case DeleteHistory => s.phase == Deleting && s.memory.history != []
    case PersistHistory(_) => s.phase == Deleting && s.memory.history == []
    case KeepHistory => s.phase == Deleting
    case Restart => true
  }

  function Unlink<D, C>(disk: Disk<D, C>, name: FileName): Disk<D, C> {
    match name
    case Base(k) => disk.(bases := disk.bases - {k})
    case Incr(k) => disk.(incrs := disk.incrs - {k})
  }

  function Next<D, C>(exec: (D, C) -> D, empty: D, s: State<D, C>, step: Step<C>): State<D, C>
    requires Enabled(s, step)
  {
    match step
    case Feed(c) =>
      s.(data := exec(s.data, c), buffer := s.buffer + [c])
    case Flush(n) =>
      s.(disk := s.disk.(incrs := s.disk.incrs[s.fd := s.disk.incrs[s.fd] + s.buffer[..n]]),
         buffer := s.buffer[n..],
         flushed := s.flushed + s.buffer[..n])
    case OpenIncr(created) =>
      if created then s.(disk := s.disk.(incrs := s.disk.incrs[s.memory.currIncr + 1 := []]), phase := Opened)
      else s
    case PersistIncr(written) =>
      if written then
        var m := NewIncr(s.memory);
        s.(disk := s.disk.(listing := Text(m)), memory := m, fd := m.currIncr, phase := Forking)
      else s.(phase := Idle)
    case Fork(forked) =>
      s.(child := if forked then Some(s.data) else None, phase := Idle)
    case ChildFailed =>
      s.(child := None)
    case RenameBase(renamed) =>
      if renamed && s.child.Some? then
        s.(disk := s.disk.(bases := s.disk.bases[s.memory.currBase + 1 := s.child.value]), phase := Renamed)
      else s.(child := None)
    case PersistBase(written) =>
      if written then
        var m := MarkRewritten(NewBase(s.memory));
        s.(disk := s.disk.(listing := Text(m)), memory := m, child := None, phase := Deleting)
      else s.(disk := Unlink(s.disk, Base(s.memory.currBase + 1)), child := None, phase := Idle)
    case DeleteHistory =>
      s.(disk := Unlink(s.disk, s.memory.history[0]), memory := s.memory.(history := s.memory.history[1..]))
    case PersistHistory(written) =>
      s.(disk := if written then s.disk.(listing := Text(s.memory)) else s.disk, phase := Idle)
    case KeepHistory =>
      s.(phase := Idle)
    case Restart =>
      var m := Load(s.disk.listing);
      var d := Recover(exec, empty, s.disk);
      State(s.disk, m, m.currIncr, [], if d.Some? then d.value else empty, None, Idle, s.flushed)
  }

  // ---- The invariant ----

  ghost predicate Consistent<D, C>(exec: (D, C) -> D, empty: D, s: State<D, C>) {
    && Loadable(s.disk.listing)
    && Loadable(Text(s.memory)) && s.memory == Load(Text(s.memory))
    && s.memory.base == s.disk.listing.base && s.memory.incr == s.disk.listing.incr
    && s.fd == s.memory.currIncr
    && s.data == Execute(exec, empty, s.flushed + s.buffer)
    && Recover(exec, empty, s.disk) == Some(Execute(exec, empty, s.flushed))
  }

  /** While a child runs, its snapshot and the file being written add up to what was flushed. */
  ghost predicate ChildConsistent<D, C>(exec: (D, C) -> D, empty: D, s: State<D, C>) {
    s.child.Some? ==>
      && s.fd in s.disk.incrs
      && Execute(exec, s.child.value, s.disk.incrs[s.fd]) == Execute(exec, empty, s.flushed)
  }

  ghost predicate PhaseConsistent<D, C>(s: State<D, C>) {
    match s.phase
    case Idle => true
    case Opened =>
      && s.buffer == [] && s.child.None?
      && s.memory.currIncr + 1 in s.disk.incrs && s.disk.incrs[s.memory.currIncr + 1] == []
    case Forking =>
      && s.buffer == [] && s.child.None? && s.fd in s.disk.incrs && s.disk.incrs[s.fd] == []
    case Renamed =>
      && s.child.Some? && s.memory.currBase + 1 in s.disk.bases
      && s.disk.bases[s.memory.currBase + 1] == s.child.value
    case Deleting => s.child.None?
  }

  ghost predicate Inv<D, C>(exec: (D, C) -> D, empty: D, s: State<D, C>) {
    Consistent(exec, empty, s) && ChildConsistent(exec, empty, s) && PhaseConsistent(s)
  }

  // ---- The files under each kind of step ----

  lemma {:induction false} ContentsFrame<C>(incrs: map<nat, seq<C>>, incrs': map<nat, seq<C>>, numbers: seq<nat>)
    requires forall n :: n in numbers ==> n in incrs && n in incrs' && incrs[n] == incrs'[n]
    ensures Contents(incrs, numbers) == Contents(incrs', numbers)
    decreases |numbers|
  {
    if numbers != [] {
      var init, last := numbers[..|numbers| - 1], numbers[|numbers| - 1];
      assert last in numbers && forall n :: n in init ==> n in numbers;
      ContentsFrame(incrs, incrs', init);
    }
  }

  /** Only the last file listed grows. */
  lemma ContentsGrow<C>(incrs: map<nat, seq<C>>, numbers: seq<nat>, more: seq<C>)
    requires numbers != [] && Increasing(numbers)
    requires forall n :: n in numbers ==> n in incrs
    ensures var last := numbers[|numbers| - 1];
            var incrs' := incrs[last := incrs[last] + more];
            Contents(incrs', numbers) == Contents(incrs, numbers) + more
  {
    var init, last := numbers[..|numbers| - 1], numbers[|numbers| - 1];
    var incrs' := incrs[last := incrs[last] + more];
    assert forall n :: n in init ==> n in numbers;
    ContentsFrame(incrs, incrs', init);
  }

  lemma ContentsNewFile<C>(incrs: map<nat, seq<C>>, numbers: seq<nat>, n: nat)
    requires forall k :: k in numbers ==> k in incrs
    requires n in incrs && incrs[n] == []
    ensures Contents(incrs, numbers + [n]) == Contents(incrs, numbers)
  {
    assert (numbers + [n])[..|numbers|] == numbers;
  }

  lemma ContentsOne<C>(incrs: map<nat, seq<C>>, n: nat)
    requires n in incrs
    ensures Contents(incrs, [n]) == incrs[n]
  {
    assert [n][..0] == [];
  }

  lemma FeedKeeps<D, C>(exec: (D, C) -> D, empty: D, s: State<D, C>, c: C)
    requires Inv(exec, empty, s) && Enabled(s, Feed(c))
    ensures Inv(exec, empty, Next(exec, empty, s, Feed(c)))
  {
    assert s.flushed + (s.buffer + [c]) == (s.flushed + s.buffer) + [c];
    assert ((s.flushed + s.buffer) + [c])[..|s.flushed + s.buffer|] == s.flushed + s.buffer;
  }

  lemma FlushRecovers<D, C>(exec: (D, C) -> D, empty: D, disk: Disk<D, C>, flushed: seq<C>, written: seq<C>)
    requires Loadable(disk.listing) && Recover(exec, empty, disk) == Some(Execute(exec, empty, flushed))
    ensures var incr := disk.listing.incr;
            var last := incr[|incr| - 1];
            && last in disk.incrs
            && Recover(exec, empty, disk.(incrs := disk.incrs[last := disk.incrs[last] + written]))
               == Some(Execute(exec, empty, flushed + written))
  {
    var incr := disk.listing.incr;
    ContentsGrow(disk.incrs, incr, written);
    var base := if disk.listing.base.Some? then disk.bases[disk.listing.base.value] else empty;
    ExecuteAppend(exec, base, Contents(disk.incrs, incr), written);
    ExecuteAppend(exec, empty, flushed, written);
  }

  lemma FlushKeeps<D, C>(exec: (D, C) -> D, empty: D, s: State<D, C>, n: nat)
    requires Inv(exec, empty, s) && Enabled(s, Flush(n))
    ensures Inv(exec, empty, Next(exec, empty, s, Flush(n)))
  {
    hide Recover, Execute, Loadable;
    var t := Next(exec, empty, s, Flush(n));
    var written := s.buffer[..n];
    assert s.memory.incr != [] by { LoadableLast(s.disk.listing); }
    FlushRecovers(exec, empty, s.disk, s.flushed, written);
    assert t.flushed + t.buffer == s.flushed + s.buffer;
    if s.child.Some? {
      ExecuteAppend(exec, s.child.value, s.disk.incrs[s.fd], written);
      ExecuteAppend(exec, empty, s.flushed, written);
    }
  }

  lemma LoadableLast(l: Listing)
    requires Loadable(l)
    ensures l.incr != []
  {
  }

  /** The new file is not listed yet, so creating or truncating it loses nothing. */
  lemma OpenKeeps<D, C>(exec: (D, C) -> D, empty: D, s: State<D, C>, created: bool)
    requires Inv(exec, empty, s) && Enabled(s, OpenIncr(created)) && s.buffer == []
    ensures Inv(exec, empty, Next(exec, empty, s, OpenIncr(created)))
  {
    var t := Next(exec, empty, s, OpenIncr(created));
    var incr := s.disk.listing.incr;
    forall n | n in incr
      ensures n <= s.memory.currIncr
    {
      var i :| 0 <= i < |incr| && incr[i] == n;
    }
    ContentsFrame(s.disk.incrs, t.disk.incrs, incr);
  }

  lemma PersistIncrKeeps<D, C>(exec: (D, C) -> D, empty: D, s: State<D, C>, written: bool)
    requires Inv(exec, empty, s) && Enabled(s, PersistIncr(written))
    ensures Inv(exec, empty, Next(exec, empty, s, PersistIncr(written)))
  {
    NewIncrLoadable(s.memory);
    ContentsNewFile(s.disk.incrs, s.disk.listing.incr, s.memory.currIncr + 1);
  }

  lemma ForkKeeps<D, C>(exec: (D, C) -> D, empty: D, s: State<D, C>, forked: bool)
    requires Inv(exec, empty, s) && Enabled(s, Fork(forked))
    ensures Inv(exec, empty, Next(exec, empty, s, Fork(forked)))
  {
    assert s.flushed + s.buffer == s.flushed;
  }

  lemma RenameKeeps<D, C>(exec: (D, C) -> D, empty: D, s: State<D, C>, renamed: bool)
    requires Inv(exec, empty, s) && Enabled(s, RenameBase(renamed))
    ensures Inv(exec, empty, Next(exec, empty, s, RenameBase(renamed)))
  {
  }

  /** The snapshot and the one INCR file still listed hold everything flushed. */
  lemma PersistBaseKeeps<D, C>(exec: (D, C) -> D, empty: D, s: State<D, C>, written: bool)
    requires Inv(exec, empty, s) && Enabled(s, PersistBase(written))
    ensures Inv(exec, empty, Next(exec, empty, s, PersistBase(written)))
  {
    RewrittenLoadable(s.memory);
    ContentsOne(s.disk.incrs, s.fd);
  }

  lemma DeleteKeeps<D, C>(exec: (D, C) -> D, empty: D, s: State<D, C>)
    requires Inv(exec, empty, s) && Enabled(s, DeleteHistory)
    ensures Inv(exec, empty, Next(exec, empty, s, DeleteHistory))
  {
    var t := Next(exec, empty, s, DeleteHistory);
    var name := s.memory.history[0];
    assert name in s.memory.history && Old(Text(s.memory), name);
    forall other | other in t.memory.history
      ensures Old(Text(t.memory), other)
    {
      assert other in s.memory.history;
    }
    var incr := s.disk.listing.incr;
    forall n | n in incr
      ensures incr[0] <= n
    {
      var i :| 0 <= i < |incr| && incr[i] == n;
    }
    ContentsFrame(s.disk.incrs, t.disk.incrs, incr);
  }

  lemma RestartKeeps<D, C>(exec: (D, C) -> D, empty: D, s: State<D, C>)
    requires Inv(exec, empty, s)
    ensures Inv(exec, empty, Next(exec, empty, s, Restart))
  {
    assert s.flushed + [] == s.flushed;
  }

  /** A rewrite is only started with an empty buffer. */
  predicate Drained<D, C>(s: State<D, C>, step: Step<C>) {
    step.OpenIncr? ==> s.buffer == []
  }

  lemma StepKeeps<D, C>(exec: (D, C) -> D, empty: D, s: State<D, C>, step: Step<C>)
    requires Inv(exec, empty, s) && Enabled(s, step) && Drained(s, step)
    ensures Inv(exec, empty, Next(exec, empty, s, step))
  {
    hide Inv, Next;
    match step
    case Feed(c) => FeedKeeps(exec, empty, s, c);
    case Flush(n) => FlushKeeps(exec, empty, s, n);
    case OpenIncr(ok) => OpenKeeps(exec, empty, s, ok);
    case PersistIncr(ok) => PersistIncrKeeps(exec, empty, s, ok);
    case Fork(ok) => ForkKeeps(exec, empty, s, ok);
    case ChildFailed => QuietKeeps(exec, empty, s, step);
    case RenameBase(ok) => RenameKeeps(exec, empty, s, ok);
    case PersistBase(ok) => PersistBaseKeeps(exec, empty, s, ok);
    case DeleteHistory => DeleteKeeps(exec, empty, s);
    case PersistHistory(_) => QuietKeeps(exec, empty, s, step);
    case KeepHistory => QuietKeeps(exec, empty, s, step);
    case Restart => RestartKeeps(exec, empty, s);
  }

  lemma QuietKeeps<D, C>(exec: (D, C) -> D, empty: D, s: State<D, C>, step: Step<C>)
    requires Inv(exec, empty, s) && Enabled(s, step)
    requires step.ChildFailed? || step.PersistHistory? || step.KeepHistory?
    ensures Inv(exec, empty, Next(exec, empty, s, step))
  {
  }

  // ---- Main results ----

  /** A run: each step enabled where it happens, each rewrite started with an empty buffer. */
  ghost predicate IsRun<D, C>(exec: (D, C) -> D, empty: D, s: State<D, C>, steps: seq<Step<C>>)
    decreases |steps|
  {
    steps == [] || (Enabled(s, steps[0]) && Drained(s, steps[0])
                    && IsRun(exec, empty, Next(exec, empty, s, steps[0]), steps[1..]))
  }

  function After<D, C>(exec: (D, C) -> D, empty: D, s: State<D, C>, steps: seq<Step<C>>): State<D, C>
    requires IsRun(exec, empty, s, steps)
    decreases |steps|
  {
    if steps == [] then s else After(exec, empty, Next(exec, empty, s, steps[0]), steps[1..])
  }

  /** The first start: an empty snapshot and an empty INCR file. */
  function Fresh<D, C>(empty: D): State<D, C> {
    var m := Manifest(Some(1), [], [1], 1, 1);
    State(Disk(map[1 := empty], map[1 := []], Text(m)), m, 1, [], empty, None, Idle, [])
  }

  lemma FreshInv<D, C>(exec: (D, C) -> D, empty: D)
    ensures Inv(exec, empty, Fresh<D, C>(empty))
  {
    var s := Fresh<D, C>(empty);
    ContentsOne(s.disk.incrs, 1);
    assert s.flushed + s.buffer == [];
  }

  lemma {:induction false} RunKeeps<D, C>(exec: (D, C) -> D, empty: D, s: State<D, C>, steps: seq<Step<C>>)
    requires Inv(exec, empty, s) && IsRun(exec, empty, s, steps)
    ensures Inv(exec, empty, After(exec, empty, s, steps))
    decreases |steps|
  {
    hide Inv, Next, Enabled;
    if steps != [] {
      StepKeeps(exec, empty, s, steps[0]);
      RunKeeps(exec, empty, Next(exec, empty, s, steps[0]), steps[1..]);
    }
  }

  /**
    Nothing flushed is lost: at every point of every run, whatever failed and however
    often the server crashed, the manifest on disk loads, its files exist, and they
    replay to the dataset after all flushed commands.
  */
  lemma FlushedIsRecovered<D, C>(exec: (D, C) -> D, empty: D, steps: seq<Step<C>>)
    requires IsRun(exec, empty, Fresh(empty), steps)
    ensures var s := After(exec, empty, Fresh(empty), steps);
            && Loadable(s.disk.listing) && FilesExist(s.disk)
            && Recover(exec, empty, s.disk) == Some(Execute(exec, empty, s.flushed))
            && s.data == Execute(exec, empty, s.flushed + s.buffer)
  {
    FreshInv<D, C>(exec, empty);
    RunKeeps(exec, empty, Fresh(empty), steps);
  }

  // ---- Where the conditions are needed ----

  /** The steps that start a rewrite when all goes well. */
  function StartRewrite<D, C>(exec: (D, C) -> D, empty: D, s: State<D, C>): (t: State<D, C>)
    requires s.phase == Idle && s.child.None?
    ensures t.phase == Idle && t.child.Some? && t.fd in t.disk.incrs
  {
    var s1 := Next(exec, empty, s, OpenIncr(true));
    var s2 := Next(exec, empty, s1, PersistIncr(true));
    Next(exec, empty, s2, Fork(true))
  }

  /** The steps that finish it, the whole buffer being flushed first. */
  function FinishRewrite<D, C>(exec: (D, C) -> D, empty: D, s: State<D, C>): State<D, C>
    requires s.phase == Idle && s.child.Some? && s.fd in s.disk.incrs
  {
    var s1 := Next(exec, empty, s, Flush(|s.buffer|));
    var s2 := Next(exec, empty, s1, RenameBase(true));
    Next(exec, empty, s2, PersistBase(true))
  }

  function WholeRewrite<D, C>(exec: (D, C) -> D, empty: D, s: State<D, C>): State<D, C>
    requires s.phase == Idle && s.child.None?
  {
    FinishRewrite(exec, empty, StartRewrite(exec, empty, s))
  }

  /**
    A rewrite started with commands still in the buffer replays them twice: the
    snapshot already holds them, and they are flushed after it.
  */
  lemma UndrainedRewriteReplaysTwice<D, C>(exec: (D, C) -> D, empty: D, s: State<D, C>)
    requires Inv(exec, empty, s) && s.phase == Idle && s.child.None?
    ensures var t := WholeRewrite(exec, empty, s);
            && t.data == s.data == Execute(exec, empty, t.flushed)
            && Recover(exec, empty, t.disk) == Some(Execute(exec, s.data, s.buffer))
  {
    WholeRewriteDisk(exec, empty, s);
    InvRecovers(exec, empty, s);
    hide *;
    var t := WholeRewrite(exec, empty, s);
    RecoverTwoFiles(exec, empty, t.disk, s.memory.currBase + 1, s.memory.currIncr + 1);
  }

  /** What the files give, and what the server has, in a consistent state. */
  lemma InvRecovers<D, C>(exec: (D, C) -> D, empty: D, s: State<D, C>)
    requires Inv(exec, empty, s)
    ensures Recover(exec, empty, s.disk) == Some(Execute(exec, empty, s.flushed))
    ensures s.data == Execute(exec, empty, s.flushed + s.buffer)
  {
    hide Recover, Execute, Loadable, ChildConsistent, PhaseConsistent;
  }

  lemma RecoverTwoFiles<D, C>(exec: (D, C) -> D, empty: D, disk: Disk<D, C>, b: nat, n: nat)
    requires disk.listing.base == Some(b) && disk.listing.incr == [n]
    requires b in disk.bases && n in disk.incrs
    ensures Recover(exec, empty, disk) == Some(Execute(exec, disk.bases[b], disk.incrs[n]))
  {
    hide Execute, Contents;
    ContentsOne(disk.incrs, n);
  }

  lemma WholeRewriteDisk<D, C>(exec: (D, C) -> D, empty: D, s: State<D, C>)
    requires Inv(exec, empty, s) && s.phase == Idle && s.child.None?
    ensures var t := WholeRewrite(exec, empty, s);
            var n, b := s.memory.currIncr + 1, s.memory.currBase + 1;
            && t.data == s.data && t.flushed == s.flushed + s.buffer
            && t.disk.listing.base == Some(b) && t.disk.listing.incr == [n]
            && b in t.disk.bases && t.disk.bases[b] == s.data
            && n in t.disk.incrs && t.disk.incrs[n] == s.buffer
  {
    hide *;
    InvMemory(exec, empty, s);
    RewrittenListing(s.memory);
    var t := StartRewrite(exec, empty, s);
    StartedState(exec, empty, s);
    FinishedDisk(exec, empty, t);
    WholeIsBoth(exec, empty, s);
    assert [] + s.buffer == s.buffer;
  }

  lemma WholeIsBoth<D, C>(exec: (D, C) -> D, empty: D, s: State<D, C>)
    requires s.phase == Idle && s.child.None?
    ensures WholeRewrite(exec, empty, s) == FinishRewrite(exec, empty, StartRewrite(exec, empty, s))
  {
    hide FinishRewrite, StartRewrite;
  }

  lemma RewrittenListing(m: Manifest)
    requires Loadable(Text(m)) && m == Load(Text(m))
    ensures var l := Text(MarkRewritten(NewBase(NewIncr(m))));
            l.base == Some(m.currBase + 1) && l.incr == [m.currIncr + 1]
    ensures NewIncr(m).currBase == m.currBase
  {
    NewIncrLoadable(m);
    RewrittenLoadable(NewIncr(m));
  }

  lemma StartedState<D, C>(exec: (D, C) -> D, empty: D, s: State<D, C>)
    requires s.phase == Idle && s.child.None?
    ensures var t := StartRewrite(exec, empty, s);
            && t.memory == NewIncr(s.memory) && t.fd == s.memory.currIncr + 1 && t.disk.incrs[t.fd] == []
            && t.child == Some(s.data) && t.buffer == s.buffer && t.flushed == s.flushed && t.data == s.data
  {
  }

  lemma FinishedDisk<D, C>(exec: (D, C) -> D, empty: D, s: State<D, C>)
    requires s.phase == Idle && s.child.Some? && s.fd in s.disk.incrs
    ensures var t := FinishRewrite(exec, empty, s);
            var b := s.memory.currBase + 1;
            && t.data == s.data && t.flushed == s.flushed + s.buffer
            && t.disk.listing == Text(MarkRewritten(NewBase(s.memory)))
            && b in t.disk.bases && t.disk.bases[b] == s.child.value
            && s.fd in t.disk.incrs && t.disk.incrs[s.fd] == s.disk.incrs[s.fd] + s.buffer
  {
    hide MarkRewritten, NewBase;
    assert s.buffer[..|s.buffer|] == s.buffer;
  }

  lemma InvMemory<D, C>(exec: (D, C) -> D, empty: D, s: State<D, C>)
    requires Inv(exec, empty, s)
    ensures Loadable(Text(s.memory)) && s.memory == Load(Text(s.memory))
  {
  }

  /** On the dataset that remembers its commands, such a rewrite is right exactly when the buffer was empty. */
  lemma UndrainedRewriteExact<C>(s: State<seq<C>, C>)
    requires Inv((d: seq<C>, c: C) => d + [c], [], s) && s.phase == Idle && s.child.None?
    ensures var exec := (d: seq<C>, c: C) => d + [c];
            var t := WholeRewrite(exec, [], s);
            Recover(exec, [], t.disk) == Some(Execute(exec, [], t.flushed)) <==> s.buffer == []
  {
    var exec := (d: seq<C>, c: C) => d + [c];
    UndrainedRewriteReplaysTwice(exec, [], s);
    ExecuteRemembers(exec, s.data, s.buffer);
  }

  lemma {:induction false} ExecuteRemembers<C>(exec: (seq<C>, C) -> seq<C>, d: seq<C>, commands: seq<C>)
    requires forall x, c :: exec(x, c) == x + [c]
    ensures Execute(exec, d, commands) == d + commands
    decreases |commands|
  {
    if commands != [] {
      var init, last := commands[..|commands| - 1], commands[|commands| - 1];
      ExecuteRemembers(exec, d, init);
      assert commands == init + [last];
    }
  }

  /**
    The handler of a finished rewrite deletes the new BASE when the manifest could
    not be persisted.  If the manifest had been replaced all the same (its rename
    went through and only the directory could not be synced), what is listed on disk
    is gone: recovery works exactly when the old manifest is still there.
  */
  lemma FailedPersistExact<D, C>(exec: (D, C) -> D, empty: D, s: State<D, C>, replaced: bool)
    requires Inv(exec, empty, s) && s.phase == Renamed
    ensures var m := MarkRewritten(NewBase(s.memory));
            var left := if replaced then s.disk.(listing := Text(m)) else s.disk;
            var disk := Unlink(left, Base(s.memory.currBase + 1));
            && (Recover(exec, empty, disk).Some? <==> !replaced)
            && (!replaced ==> Recover(exec, empty, disk) == Some(Execute(exec, empty, s.flushed)))
  {
    RewrittenLoadable(s.memory);
    if !replaced {
      PersistBaseKeeps(exec, empty, s, false);
    }
  }
}
