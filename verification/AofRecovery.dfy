/**
  The whole of append-only persistence over bytes.

  The rewrite protocol of AofRewrite is run on files of bytes: commands are fed to the
  buffer in their encoding, a flush may stop anywhere inside a command or a transaction and
  may be cut off again, and after a crash the files are loaded byte by byte, a truncated last
  file being repaired.  Seen as commands that took effect, every run is a run of AofRewrite.
*/
module AofRecovery {
  import opened Wrappers
  import opened Numbers
  import opened AofManifest
  import R = AofRewrite
  import F = AofFlush
  import opened AofLoad

  // ---- Loading all files ----

  function LoadWholeFiles(files: map<nat, Bytes>, numbers: seq<nat>): Option<seq<Command>> {
    if numbers == [] then Some([])
    else
      var n := numbers[|numbers| - 1];
      match LoadWholeFiles(files, numbers[..|numbers| - 1])
      case None => None
      case Some(before) =>
        if n in files && LoadFile(files[n]).status in {Empty, Loaded} then Some(before + LoadFile(files[n]).commands)
        else None
  }

  /** The INCR files in order; only the last one may end inside a command. */
  function LoadIncrs(files: map<nat, Bytes>, numbers: seq<nat>): Option<seq<Command>>
    requires numbers != []
  {
    var n := numbers[|numbers| - 1];
    match LoadWholeFiles(files, numbers[..|numbers| - 1])
    case None => None
    case Some(before) =>
      if n in files && LoadFile(files[n]).status != Failed then Some(before + LoadFile(files[n]).commands) else None
  }

  /** The dataset after a restart, or none when the server refuses to start. */
  function Recover<D>(exec: (D, Command) -> D, empty: D, bases: map<nat, D>, files: map<nat, Bytes>, l: Listing)
    : Option<D>
  {
    if l.incr == [] || (l.base.Some? && l.base.value !in bases) then None
    else
      match LoadIncrs(files, l.incr)
      case None => None
      case Some(commands) =>
        Some(R.Execute(exec, if l.base.Some? then bases[l.base.value] else empty, commands))
  }

  // ---- The protocol over bytes ----

  /**
    The closed INCR files, the open one with its buffer and position, and the state of the
    rewrite.  `current` are the commands fed to the open file, `earlier` those before it.
  */
  datatype State<D> = State(
    bases: map<nat, D>, incrs: map<nat, Bytes>, listing: Listing, memory: Manifest,
    fd: nat, file: F.File, data: D, child: Option<D>, phase: R.Phase,
    earlier: seq<Command>, current: seq<Command>)

  function Files<D>(s: State<D>): map<nat, Bytes> {
    s.incrs[s.fd := s.file.bytes]
  }

  /** How many commands of the open file are wholly on disk. */
  function Whole<D>(s: State<D>): (n: nat)
    ensures n <= |s.current|
  {
    WholeCommands(s.current, |s.file.bytes|)
  }

  /** How many of them take effect when it is loaded: a transaction does with its EXEC. */
  function Done<D>(s: State<D>): (m: nat)
    ensures m <= Whole(s)
  {
    Settled(s.current[..Whole(s)])
  }

  /** The commands on disk that take effect, of all files. */
  function Written<D>(s: State<D>): seq<Command> {
    s.earlier + s.current[..Done(s)]
  }

  function CommandsOf(files: map<nat, Bytes>): map<nat, seq<Command>> {
    map n | n in files :: LoadFile(files[n]).commands
  }

  /** The state as AofRewrite sees it: each file as the commands that loading it gives. */
  function View<D>(s: State<D>): R.State<D, Command> {
    R.State(R.Disk(s.bases, CommandsOf(Files(s)), s.listing), s.memory, s.fd, s.current[Done(s)..],
            s.data, s.child, s.phase, Written(s))
  }

  datatype Step =
    | Feed(command: Command)
    | Flush(written: nat, truncated: bool)
    | Manage(step: R.Step<Command>)

  /** The open file ends inside a command of an open transaction. */
  predicate Torn<D>(s: State<D>) {
    CutInBlock(s.current, |s.file.bytes|)
  }

  /**
    MULTI and EXEC come in pairs, and a rewrite does not start between them.  A flush that
    would leave a hole, a rewrite started with a buffer not written out, and a restart on a
    file that ends inside a command of an open transaction are no steps.
  */
  ghost predicate Enabled<D>(s: State<D>, step: Step) {
    match step
    case Feed(c) =>
      s.phase == R.Idle && Encodable(c) && if InBlock(s.current) then !IsMulti(c) else !IsExec(c)
    case Flush(n, truncated) =>
      && s.phase == R.Idle && n <= |s.file.buffer| && F.Seekable(s.file)
      && (F.Aligned(s.file) || !F.Keeps(s.file, n, truncated))
    case Manage(st) =>
      && !st.Feed? && !st.Flush? && R.Enabled(View(s), st)
      && (st.OpenIncr? ==> s.file.buffer == [] && !InBlock(s.current))
      && (st.Restart? ==> !Torn(s))
  }

  const NEW_FILE := F.File([], 0, false, [], 0, [])

  /** The file as opened at the start: in append mode, and as loading left it. */
  function Reopened(bytes: Bytes): F.File {
    F.File(bytes, |bytes|, true, [], |bytes|, bytes)
  }

  function Next<D>(exec: (D, Command) -> D, empty: D, s: State<D>, step: Step): State<D>
    requires step.Flush? ==> F.Seekable(s.file) && step.written <= |s.file.buffer|
  {
    match step
    case Feed(c) =>
      s.(data := exec(s.data, c), file := F.Feed(s.file, EncodeCommand(c)), current := s.current + [c])
    case Flush(n, truncated) => s.(file := F.Flush(s.file, n, truncated))
    case Manage(st) => Managed(exec, empty, s, st)
  }

  function Managed<D>(exec: (D, Command) -> D, empty: D, s: State<D>, step: R.Step<Command>): State<D> {
    match step
    case Feed(_) => s
    case Flush(_) => s
    case OpenIncr(created) =>
      if created then s.(incrs := s.incrs[s.memory.currIncr + 1 := []], phase := R.Opened) else s
    case PersistIncr(written) =>
      if written then
        var m := NewIncr(s.memory);
        s.(listing := Text(m), memory := m, incrs := Files(s), fd := m.currIncr, file := NEW_FILE,
           phase := R.Forking, earlier := s.earlier + s.current, current := [])
      else s.(phase := R.Idle)
    case Fork(forked) => s.(child := if forked then Some(s.data) else None, phase := R.Idle)
    case ChildFailed => s.(child := None)
    case RenameBase(renamed) =>
      if renamed && s.child.Some? then
        s.(bases := s.bases[s.memory.currBase + 1 := s.child.value], phase := R.Renamed)
      else s.(child := None)
    case PersistBase(written) =>
      if written then
        var m := MarkRewritten(NewBase(s.memory));
        s.(listing := Text(m), memory := m, child := None, phase := R.Deleting)
      else s.(bases := s.bases - {s.memory.currBase + 1}, child := None, phase := R.Idle)
    case DeleteHistory =>
      if s.memory.history == [] then s
      else
        var t := s.(memory := s.memory.(history := s.memory.history[1..]));
        (match s.memory.history[0]
         case Base(k) => t.(bases := t.bases - {k})
         case Incr(k) => t.(incrs := t.incrs - {k}))
    case PersistHistory(written) =>
      s.(listing := if written then Text(s.memory) else s.listing, phase := R.Idle)
    case KeepHistory => s.(phase := R.Idle)
    case Restart =>
      var m, d := Load(s.listing), Recover(exec, empty, s.bases, Files(s), s.listing);
      s.(memory := m, incrs := Files(s), fd := m.currIncr,
         file := Reopened(if m.currIncr in Files(s) then LoadFile(Files(s)[m.currIncr]).file else []),
         data := if d.Some? then d.value else empty, child := None, phase := R.Idle,
         current := s.current[..if Torn(s) then Whole(s) else Done(s)])
  }

  // ---- What the files hold ----

  /** A file of whole commands. */
  ghost predicate WholeFile(b: Bytes) {
    var o := LoadFile(b);
    o.status in {Empty, Loaded} && EncodableLog(o.commands) && b == EncodeLog(o.commands)
  }

  ghost predicate Good<D>(s: State<D>) {
    && F.Conserved(s.file) && F.Seekable(s.file)
    && EncodableLog(s.current) && Bracketed(s.current) && s.file.fed == EncodeLog(s.current)
    && (forall n :: n in s.incrs && n != s.fd ==> WholeFile(s.incrs[n]))
  }

  lemma WholeLog(log: seq<Command>)
    requires EncodableLog(log) && !InBlock(log)
    ensures WholeFile(EncodeLog(log)) && LoadFile(EncodeLog(log)).commands == log
  {
    if log != [] {
      LoadWhole(log);
    }
  }

  /** Loading the open file gives the commands that take effect; unless it is torn, it is cut to them. */
  lemma OpenFileLoads<D>(s: State<D>)
    requires Good(s)
    ensures var o := LoadFile(s.file.bytes);
            && o.status != Failed && o.commands == s.current[..Done(s)]
            && o.file == EncodeLog(s.current[..if Torn(s) then Whole(s) else Done(s)])
            && EncodableLog(o.commands)
  {
    hide EncodeLog, WholeCommands, LoadFile, Encodable, Settled, InBlock, BeforeMulti, Bracketed;
    var k, n := |s.file.bytes|, Whole(s);
    assert s.file.bytes == EncodeLog(s.current)[..k] by {
      assert s.file.bytes + s.file.buffer == EncodeLog(s.current);
    }
    var read := s.current[..n];
    assert read[..Settled(read)] == s.current[..Settled(read)];
    WholeCommandsMaximal(s.current, k);
    BracketedPrefix(s.current, n);
    SettledBefore(read);
    if k == 0 {
      EmptyLoads(s.current);
    } else {
      LoadPrefix(s.current, k);
      if InBlock(read) {
        BracketedBefore(read);
      } else {
        assert read[..|read|] == read;
      }
    }
  }

  lemma EmptyLoads(log: seq<Command>)
    ensures WholeCommands(log, 0) == 0 && EncodeLog([]) == []
    ensures LoadFile([]) == Outcome(Empty, [], [])
    ensures log[..0] == [] && !InBlock([]) && Settled([]) == 0
  {
    NothingLeft([], log);
  }

  /** Nothing in the buffer: all commands are wholly on disk, and take effect unless a transaction is open. */
  lemma DrainedIsWhole<D>(s: State<D>)
    requires Good(s)
    ensures s.file.buffer == [] <==> Whole(s) == |s.current|
    ensures s.file.buffer == [] ==> s.file.bytes == EncodeLog(s.current)
    ensures s.file.buffer == [] && !InBlock(s.current) <==> Done(s) == |s.current|
  {
    hide EncodeLog, WholeCommands, Encodable, Settled, InBlock, Bracketed;
    var n := |s.current|;
    WholeCommandsMaximal(s.current, |s.file.bytes|);
    assert s.current[..n] == s.current;
    SettledBefore(s.current);
    assert |s.file.bytes| + |s.file.buffer| == |EncodeLog(s.current)|;
    if s.file.buffer == [] {
      assert s.file.bytes + [] == s.file.bytes;
      WholeUnique(s.current, |s.file.bytes|, n);
    }
  }

  lemma CommandsOfUpdate(files: map<nat, Bytes>, n: nat, b: Bytes)
    ensures CommandsOf(files[n := b]) == CommandsOf(files)[n := LoadFile(b).commands]
  {
    hide LoadFile;
  }

  lemma CommandsOfRemoved(files: map<nat, Bytes>, n: nat)
    ensures CommandsOf(files - {n}) == CommandsOf(files) - {n}
  {
    hide LoadFile;
  }

  /** The files once the open one is named again. */
  lemma SameFiles<D>(s: State<D>, b: Bytes)
    ensures s.incrs[s.fd := b] == Files(s)[s.fd := b]
  {
  }

  // ---- Each step, seen as commands ----

  lemma FeedKeepsWhole<D>(s: State<D>, c: Command)
    requires Good(s)
    ensures WholeCommands(s.current + [c], |s.file.bytes|) == Whole(s)
  {
    hide EncodeLog, WholeCommands, EncodeCommand;
    var n, k := Whole(s), |s.file.bytes|;
    var log := s.current + [c];
    WholeCommandsMaximal(s.current, k);
    assert log[..n] == s.current[..n];
    if n < |s.current| {
      assert log[..n + 1] == s.current[..n + 1];
    } else {
      EncodeAppend(s.current, c);
      NotEmpty(c);
      assert log[..n + 1] == log;
      assert |s.file.bytes| + |s.file.buffer| == |EncodeLog(s.current)|;
    }
    WholeUnique(log, k, n);
  }

  lemma BracketedNext(log: seq<Command>, c: Command)
    ensures Bracketed(log + [c]) <==> Bracketed(log) && (InBlock(log) ==> !IsMulti(c))
  {
    hide InBlock, IsMulti;
    assert (log + [c])[..|log|] == log;
  }

  lemma FeedSeen<D>(exec: (D, Command) -> D, empty: D, s: State<D>, c: Command)
    requires Good(s) && Enabled(s, Feed(c))
    ensures Good(Next(exec, empty, s, Feed(c)))
    ensures R.Enabled(View(s), R.Feed(c))
    ensures View(Next(exec, empty, s, Feed(c))) == R.Next(exec, empty, View(s), R.Feed(c))
  {
    hide EncodeLog, WholeCommands, EncodeCommand, LoadFile, Encodable, WholeFile, Settled, Bracketed, InBlock;
    var t := Next(exec, empty, s, Feed(c));
    var n, m := Whole(s), Done(s);
    FeedKeepsWhole(s, c);
    EncodeAppend(s.current, c);
    BracketedNext(s.current, c);
    assert t.file.bytes + t.file.buffer == (s.file.bytes + s.file.buffer) + EncodeCommand(c);
    assert t.current[..n] == s.current[..n];
    assert t.current[m..] == s.current[m..] + [c] && t.current[..m] == s.current[..m];
  }

  lemma FlushGrows(f: F.File, n: nat, truncated: bool)
    requires F.Seekable(f) && F.Conserved(f) && n <= |f.buffer| && (F.Aligned(f) || !F.Keeps(f, n, truncated))
    ensures var g := F.Flush(f, n, truncated);
            && F.Conserved(g) && F.Seekable(g) && g.fed == f.fed && |f.bytes| <= |g.bytes|
  {
    F.FlushConserves(f, n, truncated);
    F.FlushSeekable(f, n, truncated);
  }

  lemma WholeGrows(log: seq<Command>, k: nat, k': nat)
    requires k <= k'
    ensures WholeCommands(log, k) <= WholeCommands(log, k')
  {
    var n, n' := WholeCommands(log, k), WholeCommands(log, k');
    WholeCommandsMaximal(log, k);
    WholeCommandsMaximal(log, k');
    hide EncodeLog, WholeCommands;
    if n' < n {
      PrefixShorter(log, n' + 1, n);
    }
  }

  /** A flush of bytes is a flush of the commands it completes. */
  lemma FlushSeen<D>(exec: (D, Command) -> D, empty: D, s: State<D>, n: nat, truncated: bool)
    requires Good(s) && Enabled(s, Flush(n, truncated))
    ensures var t := Next(exec, empty, s, Flush(n, truncated));
            && Good(t) && Done(s) <= Done(t)
            && R.Enabled(View(s), R.Flush(Done(t) - Done(s)))
            && View(t) == R.Next(exec, empty, View(s), R.Flush(Done(t) - Done(s)))
  {
    hide Good, Done, Torn, View, R.Next, R.Enabled, F.Flush, F.Seekable, F.Aligned, F.Keeps;
    FlushGood(s, n, truncated);
    FlushedView(exec, empty, s, s.(file := F.Flush(s.file, n, truncated)));
  }

  lemma FlushedView<D>(exec: (D, Command) -> D, empty: D, s: State<D>, t: State<D>)
    requires Good(s) && Good(t) && t == s.(file := t.file) && Done(s) <= Done(t) && s.phase == R.Idle
    ensures R.Enabled(View(s), R.Flush(Done(t) - Done(s)))
    ensures View(t) == R.Next(exec, empty, View(s), R.Flush(Done(t) - Done(s)))
  {
    hide Good, Done, CommandsOf, Files;
    FlushedFiles(s, t);
    Regroup(s.earlier, s.current, Done(s), Done(t));
  }

  lemma FlushGood<D>(s: State<D>, n: nat, truncated: bool)
    requires Good(s) && Enabled(s, Flush(n, truncated))
    ensures var t := s.(file := F.Flush(s.file, n, truncated));
            Good(t) && Done(s) <= Done(t)
  {
    FlushGrows(s.file, n, truncated);
    hide EncodeLog, WholeCommands, EncodableLog, WholeFile, F.Flush, F.Conserved, F.Seekable, Settled, Bracketed;
    var t := s.(file := F.Flush(s.file, n, truncated));
    WholeGrows(s.current, |s.file.bytes|, |t.file.bytes|);
    SettledGrows(s.current[..Whole(t)], Whole(s));
    assert s.current[..Whole(t)][..Whole(s)] == s.current[..Whole(s)];
  }

  lemma {:induction false} SettledGrows(log: seq<Command>, n: nat)
    requires n <= |log|
    ensures Settled(log[..n]) <= Settled(log)
    decreases |log|
  {
    if n == |log| {
      assert log[..n] == log;
    } else if InBlock(log) {
      var init := log[..|log| - 1];
      assert init[..n] == log[..n];
      SettledGrows(init, n);
    }
  }

  /** The open file has more commands, and no other file changes. */
  lemma FlushedFiles<D>(s: State<D>, t: State<D>)
    requires Good(s) && Good(t) && t == s.(file := t.file) && Done(s) <= Done(t)
    ensures var files, n := CommandsOf(Files(s)), s.fd;
            n in files && CommandsOf(Files(t)) == files[n := files[n] + s.current[Done(s)..Done(t)]]
  {
    hide Done, LoadFile, Good, CommandsOf, Files;
    OpenCommands(s);
    OpenCommands(t);
    FileReplaced(s, t);
    Regroup(s.earlier, s.current, Done(s), Done(t));
  }

  lemma OpenCommands<D>(s: State<D>)
    requires Good(s)
    ensures LoadFile(s.file.bytes).commands == s.current[..Done(s)]
    ensures s.fd in CommandsOf(Files(s)) && CommandsOf(Files(s))[s.fd] == s.current[..Done(s)]
  {
    hide Done, Torn, LoadFile, Good, EncodeLog, EncodableLog;
    OpenFileLoads(s);
  }

  lemma FileReplaced<D>(s: State<D>, t: State<D>)
    requires t == s.(file := t.file)
    ensures CommandsOf(Files(t)) == CommandsOf(Files(s))[s.fd := LoadFile(t.file.bytes).commands]
  {
    hide LoadFile, CommandsOf;
    SameFiles(s, t.file.bytes);
    CommandsOfUpdate(Files(s), s.fd, t.file.bytes);
  }

  lemma Regroup(earlier: seq<Command>, log: seq<Command>, n: nat, n': nat)
    requires n <= n' <= |log|
    ensures log[n..][..n' - n] == log[n..n'] && log[n..][n' - n..] == log[n'..]
    ensures log[..n] + log[n..n'] == log[..n']
    ensures earlier + log[..n] + log[n..n'] == earlier + log[..n']
  {
  }

  // ---- Loading, seen as commands ----

  lemma {:induction false} WholeFilesLoad(files: map<nat, Bytes>, numbers: seq<nat>)
    requires forall n :: n in numbers ==> n in files && WholeFile(files[n])
    ensures LoadWholeFiles(files, numbers) == Some(R.Contents(CommandsOf(files), numbers))
    decreases |numbers|
  {
    hide LoadFile;
    if numbers != [] {
      var init, last := numbers[..|numbers| - 1], numbers[|numbers| - 1];
      assert last in numbers && forall n :: n in init ==> n in numbers;
      WholeFilesLoad(files, init);
    }
  }

  /** The facts of the rewrite protocol that say which file is open. */
  lemma OpenFileIsLast<D>(exec: (D, Command) -> D, empty: D, s: State<D>)
    requires R.Inv(exec, empty, View(s))
    ensures Loadable(s.listing) && s.listing.incr[|s.listing.incr| - 1] == s.fd == s.memory.currIncr
    ensures Load(s.listing).currIncr == s.fd
    ensures forall n :: n in s.listing.incr ==> n in Files(s)
    ensures forall n :: n in s.listing.incr[..|s.listing.incr| - 1] ==> n in s.incrs && n != s.fd
    ensures s.listing.base.Some? ==> s.listing.base.value in s.bases
  {
    hide R.Execute, R.ChildConsistent, LoadFile, Done;
    var l := s.listing.incr;
    forall n | n in l[..|l| - 1]
      ensures n in s.incrs && n != s.fd
    {
      var i :| 0 <= i < |l| - 1 && l[i] == n;
      assert n in l;
    }
  }

  lemma IncrsLoad<D>(exec: (D, Command) -> D, empty: D, s: State<D>)
    requires Good(s) && R.Inv(exec, empty, View(s))
    ensures s.listing.incr != [] && (forall n :: n in s.listing.incr ==> n in CommandsOf(Files(s)))
    ensures LoadIncrs(Files(s), s.listing.incr) == Some(R.Contents(CommandsOf(Files(s)), s.listing.incr))
  {
    OpenFileIsLast(exec, empty, s);
    OpenFileLoads(s);
    hide LoadFile, WholeFile, EncodeLog, Done, Torn, R.Inv, EncodableLog;
    var l := s.listing.incr;
    WholeFilesLoad(Files(s), l[..|l| - 1]);
  }

  /** Loading the bytes gives the dataset that the commands of the files give. */
  lemma RecoverSeen<D>(exec: (D, Command) -> D, empty: D, s: State<D>)
    requires Good(s) && R.Inv(exec, empty, View(s))
    ensures Recover(exec, empty, s.bases, Files(s), s.listing) == R.Recover(exec, empty, View(s).disk)
  {
    hide LoadFile, WholeFile, EncodeLog, Done, Good, LoadIncrs, CommandsOf, Files, R.Inv, R.Execute, R.Contents;
    OpenFileIsLast(exec, empty, s);
    IncrsLoad(exec, empty, s);
  }

  // ---- The steps of the rewrite ----

  /** The step is the same step on commands, and keeps the files good. */
  ghost predicate Follows<D>(exec: (D, Command) -> D, empty: D, s: State<D>, st: R.Step<Command>) {
    && R.Enabled(View(s), st)
    && Good(Managed(exec, empty, s, st))
    && View(Managed(exec, empty, s, st)) == R.Next(exec, empty, View(s), st)
  }

  /** Steps that leave the files and the position alone. */
  lemma QuietSeen<D>(exec: (D, Command) -> D, empty: D, s: State<D>, st: R.Step<Command>)
    requires Good(s) && Enabled(s, Manage(st))
    requires st.Fork? || st.ChildFailed? || st.RenameBase? || st.PersistBase? || st.PersistHistory? || st.KeepHistory?
    ensures Follows(exec, empty, s, st)
  {
    hide Good, Done, Files, CommandsOf, MarkRewritten, NewBase;
    SameContents(s, Managed(exec, empty, s, st));
  }

  lemma SameContents<D>(s: State<D>, t: State<D>)
    requires s.incrs == t.incrs && s.fd == t.fd && s.file == t.file && s.current == t.current
    ensures Good(s) == Good(t) && Done(s) == Done(t) && Files(s) == Files(t)
  {
    hide WholeFile, EncodeLog, EncodableLog, Bracketed, WholeCommands, Settled;
  }

  lemma OpenSeen<D>(exec: (D, Command) -> D, empty: D, s: State<D>, created: bool)
    requires Good(s) && s.fd == s.memory.currIncr && Enabled(s, Manage(R.OpenIncr(created)))
    ensures Follows(exec, empty, s, R.OpenIncr(created))
  {
    EmptyFile();
    hide LoadFile, WholeFile, EncodeLog, WholeCommands, EncodableLog, CommandsOf;
    if created {
      CommandsOfUpdate(Files(s), s.memory.currIncr + 1, []);
      OtherFile(s, s.memory.currIncr + 1, []);
    }
  }

  lemma EmptyFile()
    ensures WholeFile([]) && LoadFile([]).commands == [] && EncodeLog([]) == []
  {
  }

  lemma OtherFile<D>(s: State<D>, n: nat, b: Bytes)
    requires n != s.fd
    ensures s.incrs[n := b][s.fd := s.file.bytes] == Files(s)[n := b]
    ensures (s.incrs - {n})[s.fd := s.file.bytes] == Files(s) - {n}
  {
  }

  lemma PersistIncrSeen<D>(exec: (D, Command) -> D, empty: D, s: State<D>, written: bool)
    requires Good(s) && R.Inv(exec, empty, View(s)) && Enabled(s, Manage(R.PersistIncr(written)))
    ensures Follows(exec, empty, s, R.PersistIncr(written))
  {
    hide LoadFile, WholeFile, EncodeLog, EncodableLog, CommandsOf, R.Inv, WholeCommands, InBlock, Settled;
    if written {
      NewFileIsEmpty(exec, empty, s);
      DrainedIsWhole(s);
      WholeLog(s.current);
      EmptyFile();
      EmptyLoads([]);
      ClosedFiles(s, s.memory.currIncr + 1);
      NothingCut(s.earlier, s.current);
    }
  }

  /** The closed files once a new, empty one is open. */
  lemma ClosedFiles<D>(s: State<D>, n: nat)
    requires n != s.fd && n in s.incrs && s.incrs[n] == []
    ensures Files(s)[n := []] == Files(s)
  {
  }

  lemma NothingCut(earlier: seq<Command>, log: seq<Command>)
    ensures log[..|log|] == log && log[|log|..] == []
    ensures earlier + log + [] == earlier + log
  {
  }

  lemma OpenedFacts<D>(exec: (D, Command) -> D, empty: D, s: State<D>)
    requires R.Inv(exec, empty, View(s)) && s.phase == R.Opened
    ensures View(s).buffer == [] && s.memory.currIncr + 1 in CommandsOf(Files(s))
    ensures CommandsOf(Files(s))[s.memory.currIncr + 1] == []
    ensures s.fd == s.memory.currIncr
  {
    hide R.Recover, R.Execute, Loadable, CommandsOf, Done;
  }

  /** Before the new file is listed it is there and empty, and nothing is buffered. */
  lemma NewFileIsEmpty<D>(exec: (D, Command) -> D, empty: D, s: State<D>)
    requires Good(s) && R.Inv(exec, empty, View(s)) && s.phase == R.Opened
    ensures s.file.buffer == [] && !InBlock(s.current)
    ensures s.memory.currIncr + 1 != s.fd && s.memory.currIncr + 1 in s.incrs && s.incrs[s.memory.currIncr + 1] == []
  {
    hide LoadFile, EncodeLog, WholeCommands, EncodableLog, R.Inv, InBlock, Settled, Bracketed;
    OpenedFacts(exec, empty, s);
    DrainedIsWhole(s);
    EmptyFile();
    var n := s.memory.currIncr + 1;
    assert n in Files(s) && Files(s)[n] == s.incrs[n];
  }

  lemma DeleteSeen<D>(exec: (D, Command) -> D, empty: D, s: State<D>)
    requires Good(s) && R.Inv(exec, empty, View(s)) && Enabled(s, Manage(R.DeleteHistory))
    ensures Follows(exec, empty, s, R.DeleteHistory)
  {
    hide LoadFile, WholeFile, EncodeLog, EncodableLog, CommandsOf, R.Inv, WholeCommands;
    HistoryIsOld(exec, empty, s);
    var name := s.memory.history[0];
    if name.Incr? {
      CommandsOfRemoved(Files(s), name.number);
      OtherFile(s, name.number, []);
    }
  }

  lemma HistoryIsOld<D>(exec: (D, Command) -> D, empty: D, s: State<D>)
    requires R.Inv(exec, empty, View(s)) && s.memory.history != []
    ensures s.memory.history[0].Incr? ==> s.memory.history[0].number != s.fd
  {
    hide R.Execute;
    var name := s.memory.history[0];
    assert name in s.memory.history && Old(Text(s.memory), name);
    OpenFileIsLast(exec, empty, s);
    var l := s.memory.incr;
    assert l[|l| - 1] == s.fd && l[0] <= l[|l| - 1];
  }

  /** A crash and a restart: the open file is cut to its whole commands. */
  lemma RestartSeen<D>(exec: (D, Command) -> D, empty: D, s: State<D>)
    requires Good(s) && R.Inv(exec, empty, View(s)) && !Torn(s)
    ensures Follows(exec, empty, s, R.Restart)
  {
    hide LoadFile, WholeFile, EncodeLog, WholeCommands, EncodableLog, CommandsOf, R.Inv, Recover, R.Recover, Loadable;
    hide Torn, Settled, InBlock, Bracketed;
    OpenFileIsLast(exec, empty, s);
    RecoverSeen(exec, empty, s);
    OpenFileLoads(s);
    var log := s.current[..Done(s)];
    DoneOutside(s);
    ReopenedGood(log);
    WholeLog(log);
    AllWhole(log);
    SameCommands(Files(s), s.fd, EncodeLog(log));
    NothingCut(s.earlier, log);
  }

  lemma DoneOutside<D>(s: State<D>)
    requires Bracketed(s.current)
    ensures var log := s.current[..Done(s)];
            Bracketed(log) && !InBlock(log) && Settled(log) == |log|
  {
    hide Bracketed, InBlock, Settled, WholeCommands;
    var read := s.current[..Whole(s)];
    SettledOutside(read);
    BracketedPrefix(s.current, Done(s));
    assert read[..Done(s)] == s.current[..Done(s)];
  }

  /** Cutting a file to its whole commands changes none of them. */
  lemma SameCommands(files: map<nat, Bytes>, n: nat, b: Bytes)
    requires n in files && LoadFile(b).commands == LoadFile(files[n]).commands
    ensures CommandsOf(files[n := b]) == CommandsOf(files)
  {
    hide LoadFile;
  }

  lemma ReopenedGood(log: seq<Command>)
    ensures F.Conserved(Reopened(EncodeLog(log))) && F.Seekable(Reopened(EncodeLog(log)))
  {
    assert EncodeLog(log) + [] == EncodeLog(log);
  }

  // ---- Main results ----

  /** The step as AofRewrite sees it. */
  function Seen<D>(exec: (D, Command) -> D, empty: D, s: State<D>, step: Step): R.Step<Command>
    requires step.Flush? ==> F.Seekable(s.file) && step.written <= |s.file.buffer|
  {
    match step
    case Feed(c) => R.Feed(c)
    case Flush(_, _) =>
      var n, n' := Done(s), Done(Next(exec, empty, s, step));
      R.Flush(if n <= n' then n' - n else 0)
    case Manage(st) => st
  }

  lemma ManageSeen<D>(exec: (D, Command) -> D, empty: D, s: State<D>, st: R.Step<Command>)
    requires Good(s) && R.Inv(exec, empty, View(s)) && Enabled(s, Manage(st))
    ensures Follows(exec, empty, s, st)
  {
    hide Good, R.Inv, View, Managed, R.Next, Follows;
    match st
    case OpenIncr(created) =>
      OpenFileIsLast(exec, empty, s);
      OpenSeen(exec, empty, s, created);
    case PersistIncr(written) => PersistIncrSeen(exec, empty, s, written);
    case DeleteHistory => DeleteSeen(exec, empty, s);
    case Restart => RestartSeen(exec, empty, s);
    case _ => QuietSeen(exec, empty, s, st);
  }

  /** Every step over bytes is a step over commands. */
  lemma StepSeen<D>(exec: (D, Command) -> D, empty: D, s: State<D>, step: Step)
    requires Good(s) && R.Inv(exec, empty, View(s)) && Enabled(s, step)
    ensures R.Enabled(View(s), Seen(exec, empty, s, step)) && R.Drained(View(s), Seen(exec, empty, s, step))
    ensures Good(Next(exec, empty, s, step))
    ensures View(Next(exec, empty, s, step)) == R.Next(exec, empty, View(s), Seen(exec, empty, s, step))
  {
    hide Good, R.Inv, View, Managed, R.Next, R.Enabled, Done;
    match step
    case Feed(c) => FeedSeen(exec, empty, s, c);
    case Flush(n, truncated) => FlushSeen(exec, empty, s, n, truncated);
    case Manage(st) =>
      ManageSeen(exec, empty, s, st);
      if st.OpenIncr? {
        NothingBuffered(s);
      }
  }

  lemma NothingBuffered<D>(s: State<D>)
    requires Good(s) && s.file.buffer == [] && !InBlock(s.current)
    ensures View(s).buffer == []
  {
    hide Good, Done;
    DrainedIsWhole(s);
  }

  ghost predicate IsRun<D>(exec: (D, Command) -> D, empty: D, s: State<D>, steps: seq<Step>)
    decreases |steps|
  {
    steps == [] || (Enabled(s, steps[0]) && IsRun(exec, empty, Next(exec, empty, s, steps[0]), steps[1..]))
  }

  ghost function After<D>(exec: (D, Command) -> D, empty: D, s: State<D>, steps: seq<Step>): State<D>
    requires IsRun(exec, empty, s, steps)
    decreases |steps|
  {
    if steps == [] then s else After(exec, empty, Next(exec, empty, s, steps[0]), steps[1..])
  }

  /** The first start: an empty snapshot and an empty INCR file. */
  function Start<D>(empty: D): State<D> {
    var m := Manifest(Some(1), [], [1], 1, 1);
    State(map[1 := empty], map[1 := []], Text(m), m, 1, Reopened([]), empty, None, R.Idle, [], [])
  }

  lemma StartGood<D>(exec: (D, Command) -> D, empty: D)
    ensures Good(Start(empty)) && R.Inv(exec, empty, View(Start(empty)))
  {
    EmptyLoads([]);
    R.FreshInv<D, Command>(exec, empty);
    hide R.Inv;
    assert CommandsOf(Files(Start(empty))) == map[1 := []];
    assert View(Start(empty)) == R.Fresh(empty);
  }

  lemma {:induction false} RunKeeps<D>(exec: (D, Command) -> D, empty: D, s: State<D>, steps: seq<Step>)
    requires Good(s) && R.Inv(exec, empty, View(s)) && IsRun(exec, empty, s, steps)
    ensures var t := After(exec, empty, s, steps);
            Good(t) && R.Inv(exec, empty, View(t))
    decreases |steps|
  {
    hide Good, R.Inv, View, Next, Seen, R.Next, R.Enabled, R.Drained;
    if steps != [] {
      StepSeen(exec, empty, s, steps[0]);
      R.StepKeeps(exec, empty, View(s), Seen(exec, empty, s, steps[0]));
      RunKeeps(exec, empty, Next(exec, empty, s, steps[0]), steps[1..]);
    }
  }

  /**
    Over every run from the first start, with flushes that stop anywhere, writes that are
    cut off, rewrites that fail anywhere and crashes at any point: loading the files byte
    by byte gives exactly the dataset after the commands that are wholly on disk, a
    transaction counting only when all of it is; and the server's dataset is that of all
    commands.
  */
  lemma WrittenIsRecovered<D>(exec: (D, Command) -> D, empty: D, steps: seq<Step>)
    requires IsRun(exec, empty, Start(empty), steps)
    ensures var s := After(exec, empty, Start(empty), steps);
            && Recover(exec, empty, s.bases, Files(s), s.listing) == Some(R.Execute(exec, empty, Written(s)))
            && s.data == R.Execute(exec, empty, s.earlier + s.current)
  {
    hide *;
    StartGood(exec, empty);
    RunKeeps(exec, empty, Start(empty), steps);
    ConsistentRecovers(exec, empty, After(exec, empty, Start(empty), steps));
  }

  lemma Halves(earlier: seq<Command>, log: seq<Command>, m: nat)
    requires m <= |log|
    ensures earlier + log[..m] + log[m..] == earlier + log
  {
  }

  lemma ConsistentRecovers<D>(exec: (D, Command) -> D, empty: D, s: State<D>)
    requires Good(s) && R.Inv(exec, empty, View(s))
    ensures Recover(exec, empty, s.bases, Files(s), s.listing) == Some(R.Execute(exec, empty, Written(s)))
    ensures s.data == R.Execute(exec, empty, s.earlier + s.current)
  {
    hide Good, Recover, R.Recover, R.Execute, R.Inv, Done, CommandsOf, Files;
    RecoverSeen(exec, empty, s);
    R.InvRecovers(exec, empty, View(s));
    Halves(s.earlier, s.current, Done(s));
  }

  // ---- Restarting inside a transaction ----

  /** A restart, and one more command, written to disk with all its bytes. */
  function RestartAndWrite<D>(exec: (D, Command) -> D, empty: D, s: State<D>, c: Command): State<D> {
    var t := Managed(exec, empty, s, R.Restart);
    var e := EncodeCommand(c);
    t.(data := exec(t.data, c), file := F.Flush(F.Feed(t.file, e), |e|, false), current := t.current + [c])
  }

  lemma WrittenBehind(b: Bytes, e: Bytes)
    requires e != []
    ensures F.Flush(F.Feed(Reopened(b), e), |e|, false).bytes == b + e
  {
    assert [] + e == e && e[..|e|] == e;
    assert b + F.Zeros(0) + e == b + e;
  }

  lemma {:induction false} OthersLoad(files: map<nat, Bytes>, n: nat, b: Bytes, numbers: seq<nat>)
    requires n !in numbers
    ensures LoadWholeFiles(files[n := b], numbers) == LoadWholeFiles(files, numbers)
    decreases |numbers|
  {
    hide LoadFile;
    if numbers != [] {
      assert numbers[|numbers| - 1] in numbers;
      OthersLoad(files, n, b, numbers[..|numbers| - 1]);
    }
  }

  /** The last file decides what is executed after the others. */
  lemma LastLoads(files: map<nat, Bytes>, numbers: seq<nat>, b: Bytes)
    requires numbers != [] && LoadIncrs(files, numbers).Some? && LoadFile(b).status != Failed
    requires numbers[|numbers| - 1] !in numbers[..|numbers| - 1]
    ensures var n := numbers[|numbers| - 1];
            && n in files
            && var before := LoadWholeFiles(files, numbers[..|numbers| - 1]);
            && before.Some?
            && LoadIncrs(files, numbers) == Some(before.value + LoadFile(files[n]).commands)
            && LoadIncrs(files[n := b], numbers) == Some(before.value + LoadFile(b).commands)
  {
    hide LoadFile, LoadWholeFiles;
    OthersLoad(files, numbers[|numbers| - 1], b, numbers[..|numbers| - 1]);
  }

  /** The file after the restart, and what it loads to with one more command in it. */
  lemma OneMoreLoads<D>(s: State<D>, c: Command)
    requires Good(s) && Encodable(c) && !IsMulti(c) && !IsExec(c)
    ensures var kept := s.current[..if Torn(s) then Whole(s) else Done(s)];
            var o := LoadFile(EncodeLog(kept) + EncodeCommand(c));
            && o.status != Failed
            && o.commands == s.current[..Done(s)] + if Torn(s) then [] else [c]
  {
    hide EncodeLog, EncodeCommand, LoadFile, Encodable, Settled, InBlock, Bracketed, WholeCommands, IsMulti, IsExec;
    var kept := s.current[..if Torn(s) then Whole(s) else Done(s)];
    EncodeAppend(kept, c);
    BlockNext(kept, c);
    LoadAll(kept + [c]);
    if Torn(s) {
      assert (kept + [c])[..Settled(kept)] == s.current[..Done(s)];
    } else {
      DoneOutside(s);
      assert (kept + [c])[..|kept| + 1] == kept + [c];
    }
  }

  /**
    After a restart one more command is written to disk.  It is recovered the next time if
    and only if the file had not ended inside a command of an open transaction: behind what
    is left of the transaction it is queued, and lost.
  */
  lemma RestartKeepsWriting<D>(exec: (D, Command) -> D, empty: D, s: State<D>, c: Command)
    requires Good(s) && R.Inv(exec, empty, View(s)) && Encodable(c) && !IsMulti(c) && !IsExec(c)
    ensures var t, u := Managed(exec, empty, s, R.Restart), RestartAndWrite(exec, empty, s, c);
            && t.data == R.Execute(exec, empty, Written(s)) && u.data == exec(t.data, c)
            && Recover(exec, empty, u.bases, Files(u), u.listing) == Some(if Torn(s) then t.data else exec(t.data, c))
  {
    hide *;
    ConsistentRecovers(exec, empty, s);
    RestartedFiles(exec, empty, s, c);
    OneMoreRecovers(exec, empty, s, c);
  }

  /** The dataset with one more command at the end of the last file, which takes effect or does not. */
  lemma RecoverMore<D>(exec: (D, Command) -> D, empty: D, bases: map<nat, D>, files: map<nat, Bytes>, l: Listing,
                       b: Bytes, more: seq<Command>)
    requires l.incr != [] && (l.base.Some? ==> l.base.value in bases)
    requires LoadIncrs(files, l.incr).Some? && LoadFile(b).status != Failed && |more| <= 1
    requires var n := l.incr[|l.incr| - 1];
             n !in l.incr[..|l.incr| - 1] && n in files && LoadFile(b).commands == LoadFile(files[n]).commands + more
    ensures var d := Recover(exec, empty, bases, files, l);
            && d.Some?
            && Recover(exec, empty, bases, files[l.incr[|l.incr| - 1] := b], l)
            == Some(if more == [] then d.value else exec(d.value, more[0]))
  {
    hide LoadFile, LoadIncrs, LoadWholeFiles, R.Execute;
    LastLoads(files, l.incr, b);
    var n, base := l.incr[|l.incr| - 1], if l.base.Some? then bases[l.base.value] else empty;
    var all := LoadIncrs(files, l.incr).value;
    Together(LoadWholeFiles(files, l.incr[..|l.incr| - 1]).value, LoadFile(files[n]).commands, more);
    if more != [] {
      ExecuteMore(exec, base, all, more[0]);
    }
  }

  lemma Together(a: seq<Command>, b: seq<Command>, more: seq<Command>)
    requires |more| <= 1
    ensures a + (b + more) == a + b + more
    ensures if more == [] then a + b + more == a + b else a + b + more == a + b + [more[0]]
  {
  }

  lemma OneMoreRecovers<D>(exec: (D, Command) -> D, empty: D, s: State<D>, c: Command)
    requires Good(s) && R.Inv(exec, empty, View(s)) && Encodable(c) && !IsMulti(c) && !IsExec(c)
    ensures var kept := s.current[..if Torn(s) then Whole(s) else Done(s)];
            var files := Files(s)[s.fd := EncodeLog(kept) + EncodeCommand(c)];
            var d := Recover(exec, empty, s.bases, Files(s), s.listing);
            && d.Some?
            && Recover(exec, empty, s.bases, files, s.listing) == Some(if Torn(s) then d.value else exec(d.value, c))
  {
    hide Good, R.Inv, Done, Torn, LoadFile, EncodeLog, EncodeCommand, LoadIncrs, Recover, Encodable, IsMulti, IsExec;
    OpenFileIsLast(exec, empty, s);
    OpenFileLoads(s);
    OneMoreLoads(s, c);
    IncrsLoad(exec, empty, s);
    var kept := s.current[..if Torn(s) then Whole(s) else Done(s)];
    RecoverMore(exec, empty, s.bases, Files(s), s.listing, EncodeLog(kept) + EncodeCommand(c),
                if Torn(s) then [] else [c]);
  }

  lemma ExecuteMore<D>(exec: (D, Command) -> D, d: D, commands: seq<Command>, c: Command)
    ensures R.Execute(exec, d, commands + [c]) == exec(R.Execute(exec, d, commands), c)
  {
    assert (commands + [c])[..|commands|] == commands;
  }

  lemma RestartedFiles<D>(exec: (D, Command) -> D, empty: D, s: State<D>, c: Command)
    requires Good(s) && R.Inv(exec, empty, View(s))
    ensures var t, u := Managed(exec, empty, s, R.Restart), RestartAndWrite(exec, empty, s, c);
            var kept := s.current[..if Torn(s) then Whole(s) else Done(s)];
            && u.file.bytes == EncodeLog(kept) + EncodeCommand(c)
            && Files(u) == Files(s)[s.fd := u.file.bytes]
            && u.bases == s.bases && u.listing == s.listing && u.data == exec(t.data, c)
            && var d := Recover(exec, empty, s.bases, Files(s), s.listing); (d.Some? ==> t.data == d.value)
  {
    hide LoadFile, EncodeLog, EncodeCommand, R.Inv, Recover, Loadable, Torn, Done, F.Flush, F.Feed;
    OpenFileIsLast(exec, empty, s);
    OpenFileLoads(s);
    NotEmpty(c);
    var kept := s.current[..if Torn(s) then Whole(s) else Done(s)];
    WrittenBehind(EncodeLog(kept), EncodeCommand(c));
  }
}
