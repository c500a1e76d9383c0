/**
  Clients blocked on keys.

  Each client knows the keys it waits for, and each key knows its waiting clients in
  order.  Beside this two-way index the server keeps a count, per key, of the waiters
  that also want to be woken when the key disappears, a count of blocked clients per
  kind, and a queue of keys that became ready.

  A key stands for a key of one database: the database of a client does not change
  while it is blocked.
*/
module BlockedClients {
  import opened Wrappers

  type Key = string
  type ClientId = nat

  datatype Kind =
    | Unblocked | OnList | OnZset | OnStream | OnModule | OnReplicas | OnAof
    | Postponed | PostponedTrim | OnShutdown | OnLazyFree

  /** The kinds that wait for keys. */
  predicate WaitsForKeys(kind: Kind) {
    kind in {OnList, OnZset, OnStream, OnModule}
  }

  datatype Client = Client(kind: Kind, keys: set<Key>, onNoKey: bool, isModule: bool)

  datatype ValueType = ListValue | ZsetValue | StreamValue | ModuleValue | OtherValue

  function KindOf(t: ValueType): Kind {
    match t
    case ListValue => OnList
    case ZsetValue => OnZset
    case StreamValue => OnStream
    case ModuleValue => OnModule
    case OtherValue => Unblocked
  }

  // ---- Lists without repetition ----

  ghost predicate NoRepeats<T(!new)>(l: seq<T>) {
    forall i, j :: 0 <= i < j < |l| ==> l[i] != l[j]
  }

  function Remove<T(==)>(l: seq<T>, x: T): seq<T> {
    if l == [] then [] else if l[0] == x then l[1..] else [l[0]] + Remove(l[1..], x)
  }

  lemma {:induction false} RemoveOnly<T(!new)>(l: seq<T>, x: T)
    requires NoRepeats(l)
    ensures NoRepeats(Remove(l, x))
    ensures forall y :: y in Remove(l, x) <==> y in l && y != x
    decreases |l|
  {
    if l != [] {
      assert l == [l[0]] + l[1..];
      assert NoRepeats(l[1..]) && l[0] !in l[1..];
      RemoveOnly(l[1..], x);
      if l[0] != x {
        PrependNew(l[0], Remove(l[1..], x));
      }
    }
  }

  lemma PrependNew<T(!new)>(x: T, l: seq<T>)
    requires NoRepeats(l) && x !in l
    ensures NoRepeats([x] + l)
  {
  }

  lemma AppendNew<T(!new)>(l: seq<T>, x: T)
    requires NoRepeats(l) && x !in l
    ensures NoRepeats(l + [x])
  {
  }

  // ---- The indexes ----

  type Clients = map<ClientId, Client>
  type Waiting = map<Key, seq<ClientId>>

  function KeySet(keys: seq<Key>): set<Key> {
    set k | k in keys
  }

  function WaitersOf(waiting: Waiting, k: Key): seq<ClientId> {
    if k in waiting then waiting[k] else []
  }

  /** A client is in the list of a key exactly once if it waits for the key, and no list is empty. */
  ghost predicate TwoWay(clients: Clients, waiting: Waiting) {
    && (forall k :: k in waiting ==> waiting[k] != [] && NoRepeats(waiting[k]))
    && (forall k, c :: k in waiting && c in waiting[k] ==> c in clients && k in clients[c].keys)
    && (forall c, k :: c in clients && k in clients[c].keys ==> k in waiting && c in waiting[k])
  }

  predicate Asks(clients: Clients, c: ClientId) {
    c in clients && clients[c].onNoKey
  }

  function CountAsking(clients: Clients, l: seq<ClientId>): nat {
    if l == [] then 0 else (if Asks(clients, l[0]) then 1 else 0) + CountAsking(clients, l[1..])
  }

  /** The count of a key is the number of its waiters that asked, and it is absent when that is zero. */
  ghost predicate NoKeyCounts(clients: Clients, waiting: Waiting, noKey: map<Key, nat>) {
    forall k :: CountAsking(clients, WaitersOf(waiting, k)) == (if k in noKey then noKey[k] else 0)
             && (k in noKey ==> noKey[k] > 0)
  }

  function OfKind(clients: Clients, kind: Kind): set<ClientId> {
    set c | c in clients && clients[c].kind == kind
  }

  function BlockedRegular(clients: Clients): set<ClientId> {
    set c | c in clients && clients[c].kind != Unblocked && !clients[c].isModule
  }

  ghost predicate KindCounts(clients: Clients, byKind: map<Kind, nat>, blocked: nat) {
    && (forall kind :: kind in byKind && (kind != Unblocked ==> byKind[kind] == |OfKind(clients, kind)|))
    && blocked == |BlockedRegular(clients)|
  }

  /** A client that is not blocked, or blocked on something else, waits for no key. */
  ghost predicate IdleClients(clients: Clients) {
    forall c :: c in clients && !WaitsForKeys(clients[c].kind) ==> clients[c].keys == {} && !clients[c].onNoKey
  }

  /** The queued keys, without repetition, are exactly the keys marked as queued. */
  ghost predicate ReadyOnce(queue: seq<Key>, marked: set<Key>) {
    NoRepeats(queue) && forall k :: k in marked <==> k in queue
  }

  // ---- Counting ----

  lemma {:induction false} CountAppend(clients: Clients, l: seq<ClientId>, c: ClientId)
    ensures CountAsking(clients, l + [c]) == CountAsking(clients, l) + if Asks(clients, c) then 1 else 0
    decreases |l|
  {
    if l == [] {
      assert l + [c] == [c] && [c][1..] == [];
    } else {
      assert (l + [c])[1..] == l[1..] + [c];
      CountAppend(clients, l[1..], c);
    }
  }

  lemma {:induction false} CountRemove(clients: Clients, l: seq<ClientId>, c: ClientId)
    requires c in l
    ensures CountAsking(clients, Remove(l, c)) == CountAsking(clients, l) - if Asks(clients, c) then 1 else 0
    decreases |l|
  {
    if l[0] != c {
      CountRemove(clients, l[1..], c);
      assert ([l[0]] + Remove(l[1..], c))[1..] == Remove(l[1..], c);
    }
  }

  lemma {:induction false} CountFrame(clients: Clients, clients': Clients, l: seq<ClientId>)
    requires forall c :: c in l ==> Asks(clients, c) == Asks(clients', c)
    ensures CountAsking(clients, l) == CountAsking(clients', l)
    decreases |l|
  {
    if l != [] {
      assert l[0] in l && forall c :: c in l[1..] ==> c in l;
      CountFrame(clients, clients', l[1..]);
    }
  }

  // ---- One key of one client ----

  /** Adding a client to the list of a key. */
  lemma AddKeepsTwoWay(clients: Clients, waiting: Waiting, c: ClientId, k: Key)
    requires TwoWay(clients, waiting) && c in clients && k !in clients[c].keys
    ensures var l := WaitersOf(waiting, k);
            TwoWay(clients[c := clients[c].(keys := clients[c].keys + {k})], waiting[k := l + [c]])
  {
    var l := WaitersOf(waiting, k);
    AppendNew(l, c);
  }

  lemma RemoveKeepsTwoWay(clients: Clients, waiting: Waiting, c: ClientId, k: Key)
    requires TwoWay(clients, waiting) && c in clients && k in clients[c].keys
    ensures var l := Remove(waiting[k], c);
            TwoWay(clients[c := clients[c].(keys := clients[c].keys - {k})],
                   if l == [] then waiting - {k} else waiting[k := l])
  {
    RemoveOnly(waiting[k], c);
  }

  /** The key counts when a waiter joins the list of a key. */
  lemma AddKeepsNoKey(clients: Clients, waiting: Waiting, noKey: map<Key, nat>, c: ClientId, k: Key)
    requires NoKeyCounts(clients, waiting, noKey) && c in clients
    ensures var l := WaitersOf(waiting, k);
            var clients' := clients[c := clients[c].(keys := clients[c].keys + {k})];
            var noKey' := if clients[c].onNoKey then noKey[k := (if k in noKey then noKey[k] else 0) + 1] else noKey;
            NoKeyCounts(clients', waiting[k := l + [c]], noKey')
  {
    var l := WaitersOf(waiting, k);
    var clients' := clients[c := clients[c].(keys := clients[c].keys + {k})];
    var waiting' := waiting[k := l + [c]];
    CountAppend(clients', l, c);
    forall q
      ensures CountAsking(clients', WaitersOf(waiting, q)) == CountAsking(clients, WaitersOf(waiting, q))
    {
      CountFrame(clients, clients', WaitersOf(waiting, q));
    }
  }

  /** And when a waiter leaves it. */
  lemma RemoveKeepsNoKey(clients: Clients, waiting: Waiting, noKey: map<Key, nat>, c: ClientId, k: Key)
    requires NoKeyCounts(clients, waiting, noKey) && c in clients && k in waiting && c in waiting[k]
    ensures var l := Remove(waiting[k], c);
            var clients' := clients[c := clients[c].(keys := clients[c].keys - {k})];
            && (clients[c].onNoKey ==> k in noKey)
            && (if l == [] then NoKeyCounts(clients', waiting - {k}, noKey - {k})
                else if !clients[c].onNoKey then NoKeyCounts(clients', waiting[k := l], noKey)
                else NoKeyCounts(clients', waiting[k := l],
                                 if noKey[k] == 1 then noKey - {k} else noKey[k := noKey[k] - 1]))
  {
    var l := Remove(waiting[k], c);
    var clients' := clients[c := clients[c].(keys := clients[c].keys - {k})];
    CountRemove(clients, waiting[k], c);
    CountFrame(clients, clients', l);
    forall q
      ensures CountAsking(clients', WaitersOf(waiting, q)) == CountAsking(clients, WaitersOf(waiting, q))
    {
      CountFrame(clients, clients', WaitersOf(waiting, q));
    }
  }

  /** The lists and the key counts without client c at key k. */
  function ReleasedWaiting(waiting: Waiting, c: ClientId, k: Key): Waiting
    requires k in waiting
  {
    var l := Remove(waiting[k], c);
    if l == [] then waiting - {k} else waiting[k := l]
  }

  function ReleasedNoKey(waiting: Waiting, noKey: map<Key, nat>, c: ClientId, k: Key, asks: bool): map<Key, nat>
    requires k in waiting && (asks ==> k in noKey && noKey[k] > 0)
  {
    if Remove(waiting[k], c) == [] then noKey - {k}
    else if !asks then noKey
    else if noKey[k] == 1 then noKey - {k}
    else noKey[k := noKey[k] - 1]
  }

  lemma ReleaseSound(clients: Clients, waiting: Waiting, noKey: map<Key, nat>, c: ClientId, k: Key)
    requires TwoWay(clients, waiting) && NoKeyCounts(clients, waiting, noKey)
    requires c in clients && k in clients[c].keys
    ensures k in waiting && (clients[c].onNoKey ==> k in noKey && noKey[k] > 0)
    ensures var clients' := clients[c := clients[c].(keys := clients[c].keys - {k})];
            && TwoWay(clients', ReleasedWaiting(waiting, c, k))
            && NoKeyCounts(clients', ReleasedWaiting(waiting, c, k),
                           ReleasedNoKey(waiting, noKey, c, k, clients[c].onNoKey))
  {
    Listed(clients, waiting, c, k);
    RemoveKeepsTwoWay(clients, waiting, c, k);
    RemoveKeepsNoKey(clients, waiting, noKey, c, k);
    assert clients[c].onNoKey ==> noKey[k] > 0;
  }

  /** Client c waits last on the lists of these keys, and the other lists are as before. */
  ghost predicate JoinedLists(before: Waiting, now: Waiting, c: ClientId, keys: set<Key>) {
    forall k :: WaitersOf(now, k) == if k in keys then WaitersOf(before, k) + [c] else WaitersOf(before, k)
  }

  lemma JoinedNone(waiting: Waiting, c: ClientId)
    ensures JoinedLists(waiting, waiting, c, {})
  {
  }

  lemma JoinedMore(before: Waiting, now: Waiting, c: ClientId, keys: set<Key>, k: Key)
    requires k !in keys && JoinedLists(before, now, c, keys)
    ensures JoinedLists(before, now[k := WaitersOf(now, k) + [c]], c, keys + {k})
  {
  }

  /** Client c has left every list it stood on, but for those of the keys in `left`. */
  ghost predicate LeftLists(before: Waiting, now: Waiting, c: ClientId, left: set<Key>) {
    forall q :: WaitersOf(now, q) == if q in left then WaitersOf(before, q) else Remove(WaitersOf(before, q), c)
  }

  lemma ReleasedWaiters(before: Waiting, now: Waiting, c: ClientId, k: Key, left: set<Key>)
    requires k in now && k in left && LeftLists(before, now, c, left)
    ensures LeftLists(before, ReleasedWaiting(now, c, k), c, left - {k})
  {
    hide Remove;
    assert WaitersOf(now, k) == WaitersOf(before, k);
  }

  lemma NotLeftYet(clients: Clients, waiting: Waiting, c: ClientId)
    requires c in clients && TwoWay(clients, waiting)
    ensures LeftLists(waiting, waiting, c, clients[c].keys)
  {
    NotWaitingElsewhere(clients, waiting, c);
  }

  /** Leaving the rest of the lists completes the leaving. */
  lemma LeftRest(clients: Clients, before: Waiting, mid: Waiting, after: Waiting, c: ClientId)
    requires c in clients && TwoWay(clients, mid)
    requires LeftLists(before, mid, c, clients[c].keys) && LeftLists(mid, after, c, {})
    ensures LeftLists(before, after, c, {})
  {
    NotWaitingElsewhere(clients, mid, c);
    hide TwoWay, Remove, WaitersOf;
    forall q
      ensures WaitersOf(after, q) == Remove(WaitersOf(before, q), c)
    {
      assert WaitersOf(after, q) == Remove(WaitersOf(mid, q), c);
    }
  }

  // ---- Signals ----

  /** A client the change of a key may wake, as the kinds of client and value tell. */
  predicate Matches(client: Client, k: Key, t: ValueType, deleted: bool) {
    && k in client.keys && KindOf(t) != Unblocked
    && (client.kind == KindOf(t) || client.kind == OnModule)
    && (deleted ==> client.onNoKey)
  }

  ghost predicate HasMatch(clients: Clients, k: Key, t: ValueType, deleted: bool) {
    exists c :: c in clients && Matches(clients[c], k, t, deleted)
  }

  /** Some client waits for the key, one that wants to know of its deletion if it is deleted. */
  ghost predicate HasWaiter(clients: Clients, k: Key, deleted: bool) {
    exists c :: c in clients && k in clients[c].keys && (deleted ==> clients[c].onNoKey)
  }

  lemma {:induction false} CountPositive(clients: Clients, l: seq<ClientId>)
    ensures CountAsking(clients, l) > 0 <==> exists c :: c in l && Asks(clients, c)
    decreases |l|
  {
    if l != [] {
      CountPositive(clients, l[1..]);
      assert l == [l[0]] + l[1..];
      if Asks(clients, l[0]) {
        assert l[0] in l;
      }
    }
  }

  /** The lookups a signal makes answer whether anybody waits. */
  lemma WaiterFound(clients: Clients, waiting: Waiting, noKey: map<Key, nat>, k: Key)
    requires TwoWay(clients, waiting) && NoKeyCounts(clients, waiting, noKey)
    ensures k in waiting <==> HasWaiter(clients, k, false)
    ensures k in noKey <==> HasWaiter(clients, k, true)
  {
    if k in waiting {
      assert waiting[k][0] in waiting[k];
    }
    CountPositive(clients, WaitersOf(waiting, k));
    hide CountAsking;
    if k in noKey {
      var c :| c in WaitersOf(waiting, k) && Asks(clients, c);
      assert c in waiting[k];
    }
  }

  /** A signal queues the key: clients of a fitting kind are blocked somewhere, and somebody waits for this key. */
  ghost predicate Queues(clients: Clients, k: Key, t: ValueType, deleted: bool) {
    && KindOf(t) != Unblocked
    && (OfKind(clients, KindOf(t)) != {} || OfKind(clients, OnModule) != {})
    && HasWaiter(clients, k, deleted)
  }

  /** So a signal never misses a matching client. */
  lemma MatchQueues(clients: Clients, k: Key, t: ValueType, deleted: bool)
    requires HasMatch(clients, k, t, deleted)
    ensures Queues(clients, k, t, deleted)
  {
    var c :| c in clients && Matches(clients[c], k, t, deleted);
    assert c in OfKind(clients, clients[c].kind);
  }

  /** The counts tell whether clients of a kind are blocked. */
  lemma CountTells(clients: Clients, byKind: map<Kind, nat>, blocked: nat, kind: Kind)
    requires KindCounts(clients, byKind, blocked) && kind != Unblocked
    ensures byKind[kind] == 0 <==> OfKind(clients, kind) == {}
  {
  }

  /** What the counts say of whether a signal queues the key. */
  lemma QueuesByCounts(clients: Clients, byKind: map<Kind, nat>, blocked: nat, k: Key, t: ValueType, deleted: bool)
    requires KindCounts(clients, byKind, blocked)
    ensures KindOf(t) == Unblocked ==> !Queues(clients, k, t, deleted)
    ensures KindOf(t) != Unblocked ==>
              && KindOf(t) in byKind && OnModule in byKind
              && (Queues(clients, k, t, deleted) <==>
                    (byKind[KindOf(t)] != 0 || byKind[OnModule] != 0) && HasWaiter(clients, k, deleted))
  {
    hide HasWaiter, OfKind;
    if KindOf(t) != Unblocked {
      CountTells(clients, byKind, blocked, KindOf(t));
      CountTells(clients, byKind, blocked, OnModule);
    }
  }

  lemma MarkedIsQueued(queue: seq<Key>, marked: set<Key>, k: Key)
    requires ReadyOnce(queue, marked)
    ensures k in marked <==> k in queue
  {
  }

  lemma QueueMore(queue: seq<Key>, marked: set<Key>, k: Key)
    requires ReadyOnce(queue, marked) && k !in marked
    ensures ReadyOnce(queue + [k], marked + {k})
  {
    AppendNew(queue, k);
  }

  lemma QueueLess(queue: seq<Key>, marked: set<Key>)
    requires ReadyOnce(queue, marked) && queue != []
    ensures ReadyOnce(queue[1..], marked - {queue[0]})
  {
    assert queue == [queue[0]] + queue[1..];
    assert queue[0] !in queue[1..];
  }

  // ---- Serving ----

  type KeyKind = kind: Kind | WaitsForKeys(kind) witness OnList

  datatype Signal = Signal(key: Key, value: ValueType, deleted: bool)

  datatype Wait = Wait(kind: KeyKind, keys: seq<Key>, onNoKey: bool)

  /**
    What happens at the turn of one waiting client: the value the key has then, the keys
    its command signals when it runs again, and the wait it enters when it blocks again.
  */
  datatype Turn = Turn(value: Option<ValueType>, signals: seq<Signal>, again: Option<Wait>)

  function TurnAt(turns: seq<Turn>, i: nat): Turn {
    if i < |turns| then turns[i] else Turn(None, [], None)
  }

  /** The client is handed the key: its kind fits, or it is a module's, or any change will do. */
  predicate Picked(client: Client, turn: Turn) {
    || (turn.value.Some? && (client.kind == KindOf(turn.value.value) || client.kind == OnModule))
    || client.onNoKey
  }

  predicate Leaves(client: Client, turn: Turn) {
    Picked(client, turn) && client.kind != OnModule
  }

  predicate Rejoins(client: Client, turn: Turn, k: Key) {
    Leaves(client, turn) && turn.again.Some? && k in turn.again.value.keys
  }

  /** The client after its turn. */
  function Afterwards(client: Client, turn: Turn): Client {
    if !Leaves(client, turn) then client
    else if turn.again.None? then Client(Unblocked, {}, false, client.isModule)
    else Client(turn.again.value.kind, KeySet(turn.again.value.keys), turn.again.value.onNoKey, client.isModule)
  }

  /** Of the first i waiters, those that keep their place, in order. */
  function Kept(clients: Clients, w: seq<ClientId>, turns: seq<Turn>, i: nat): seq<ClientId>
    requires i <= |w| && forall c :: c in w ==> c in clients
  {
    if i == 0 then [] else
      Kept(clients, w, turns, i - 1) + if Leaves(clients[w[i - 1]], TurnAt(turns, i - 1)) then [] else [w[i - 1]]
  }

  /** Of the first i waiters, those that wait for the key again, in order. */
  function Rejoined(clients: Clients, w: seq<ClientId>, turns: seq<Turn>, k: Key, i: nat): seq<ClientId>
    requires i <= |w| && forall c :: c in w ==> c in clients
  {
    if i == 0 then [] else
      Rejoined(clients, w, turns, k, i - 1)
      + if Rejoins(clients[w[i - 1]], TurnAt(turns, i - 1), k) then [w[i - 1]] else []
  }

  /** The list of a key after one waiter's turn. */
  function ListAfter(l: seq<ClientId>, c: ClientId, client: Client, turn: Turn, k: Key): seq<ClientId> {
    if !Leaves(client, turn) then l else Remove(l, c) + if Rejoins(client, turn, k) then [c] else []
  }

  /** The first i waiters had their turns, and nobody else has changed. */
  ghost predicate HadTurns(before: Clients, now: Clients, w: seq<ClientId>, turns: seq<Turn>, i: nat)
    requires i <= |w|
  {
    && now.Keys == before.Keys
    && (forall c :: c in before && c !in w[..i] ==> now[c] == before[c])
    && (forall j :: 0 <= j < i && w[j] in before ==> now[w[j]] == Afterwards(before[w[j]], TurnAt(turns, j)))
  }

  lemma TurnTaken(before: Clients, now: Clients, w: seq<ClientId>, turns: seq<Turn>, i: nat)
    requires i < |w| && NoRepeats(w) && HadTurns(before, now, w, turns, i) && w[i] in before
    ensures w[i] in now && now[w[i]] == before[w[i]]
    ensures HadTurns(before, now[w[i] := Afterwards(before[w[i]], TurnAt(turns, i))], w, turns, i + 1)
  {
    hide Afterwards, TurnAt;
    assert w[i] !in w[..i];
    assert w[..i + 1] == w[..i] + [w[i]];
  }

  lemma WaitersKnown(clients: Clients, waiting: Waiting, k: Key)
    requires TwoWay(clients, waiting)
    ensures NoRepeats(WaitersOf(waiting, k))
    ensures forall c :: c in WaitersOf(waiting, k) ==> c in clients && k in clients[c].keys
  {
  }

  lemma {:induction false} RemoveAt<T(!new)>(l: seq<T>, p: nat)
    requires NoRepeats(l) && p < |l|
    ensures Remove(l, l[p]) == l[..p] + l[p + 1..]
    decreases |l|
  {
    if p > 0 {
      assert l[1..][p - 1] == l[p];
      RemoveAt(l[1..], p - 1);
      assert l[..p] == [l[0]] + l[1..][..p - 1];
      assert l[p + 1..] == l[1..][p..];
    }
  }

  /** One turn on the list, seen as kept waiters, waiters to come, and waiters that came back. */
  lemma TurnOnList(kept: seq<ClientId>, rest: seq<ClientId>, back: seq<ClientId>, client: Client, turn: Turn, k: Key)
    requires rest != [] && NoRepeats(kept + rest + back)
    ensures (kept + rest + back)[|kept|] == rest[0]
    ensures ListAfter(kept + rest + back, rest[0], client, turn, k)
         == (kept + if Leaves(client, turn) then [] else [rest[0]]) + rest[1..]
            + (back + if Rejoins(client, turn, k) then [rest[0]] else [])
  {
    var l := kept + rest + back;
    assert l[|kept|] == rest[0];
    if Leaves(client, turn) {
      RemoveAt(l, |kept|);
      assert l[..|kept|] + l[|kept| + 1..] == kept + rest[1..] + back;
    } else {
      assert rest == [rest[0]] + rest[1..];
      assert back + [] == back;
    }
  }

  /** After i turns on the list of key k, with the cursor behind the kept waiters. */
  ghost predicate Midway(before: Clients, now: Clients, l: seq<ClientId>, w: seq<ClientId>, turns: seq<Turn>, k: Key,
                         i: nat, p: nat)
  {
    && i <= |w| && NoRepeats(w) && (forall c :: c in w ==> c in before)
    && HadTurns(before, now, w, turns, i)
    && p == |Kept(before, w, turns, i)|
    && l == Kept(before, w, turns, i) + w[i..] + Rejoined(before, w, turns, k, i)
  }

  lemma MidwayStart(clients: Clients, w: seq<ClientId>, turns: seq<Turn>, k: Key)
    requires NoRepeats(w) && forall c :: c in w ==> c in clients
    ensures Midway(clients, clients, w, w, turns, k, 0, 0)
  {
    assert w == [] + w[0..] + [];
  }

  lemma MidwayStep(before: Clients, now: Clients, l: seq<ClientId>, w: seq<ClientId>, turns: seq<Turn>, k: Key,
                   i: nat, p: nat)
    requires Midway(before, now, l, w, turns, k, i, p) && i < |w| && NoRepeats(l)
    ensures p < |l| && l[p] in now
    ensures var c, client, turn := l[p], now[l[p]], TurnAt(turns, i);
            Midway(before, now[c := Afterwards(client, turn)], ListAfter(l, c, client, turn, k), w, turns, k, i + 1,
                   if Leaves(client, turn) then p else p + 1)
  {
    hide NoRepeats, HadTurns, Afterwards, ListAfter, Leaves, Rejoins, TurnAt;
    assert w[i] in w;
    TurnTaken(before, now, w, turns, i);
    TurnOnList(Kept(before, w, turns, i), w[i..], Rejoined(before, w, turns, k, i), before[w[i]], TurnAt(turns, i), k);
    assert w[i..][1..] == w[i + 1..];
  }

  lemma MidwayEnd(before: Clients, now: Clients, l: seq<ClientId>, w: seq<ClientId>, turns: seq<Turn>, k: Key,
                  i: nat, p: nat)
    requires Midway(before, now, l, w, turns, k, i, p) && (i == |w| || p >= |l|)
    ensures HadTurns(before, now, w, turns, |w|)
    ensures (forall c :: c in w ==> c in before)
         && l == Kept(before, w, turns, |w|) + Rejoined(before, w, turns, k, |w|)
  {
    assert i == |w|;
    assert w[|w|..] == [];
  }

  function ZeroCounts(): map<Kind, nat> {
    map[Unblocked := 0, OnList := 0, OnZset := 0, OnStream := 0, OnModule := 0,
        OnReplicas := 0, OnAof := 0, Postponed := 0, PostponedTrim := 0, OnShutdown := 0, OnLazyFree := 0]
  }

  lemma NobodyBlocked()
    ensures KindCounts(map[], ZeroCounts(), 0)
  {
    forall kind
      ensures kind in ZeroCounts() && ZeroCounts()[kind] == 0 && OfKind(map[], kind) == {}
    {
      match kind {
        case Unblocked => case OnList => case OnZset => case OnStream => case OnModule =>
        case OnReplicas => case OnAof => case Postponed => case PostponedTrim => case OnShutdown => case OnLazyFree =>
      }
    }
    assert BlockedRegular(map[]) == {};
  }

  // ---- Changes that keep the indexes and the counts ----

  lemma NextOffQueue(l: seq<Key>, queue: seq<Key>, marked: set<Key>)
    requires l != [] && ReadyOnce(l + queue, marked)
    ensures ReadyOnce(l[1..] + queue, marked - {l[0]})
  {
    QueueLess(l + queue, marked);
    assert (l + queue)[1..] == l[1..] + queue;
  }

  /** Between two points keys were queued, and only added to the list. */
  ghost predicate Grew(queued0: seq<Key>, list0: seq<Key>, queued: seq<Key>, list: seq<Key>) {
    queued0 <= queued && list == list0 + queued[|queued0|..]
  }

  lemma NothingGrew(queued: seq<Key>, list: seq<Key>)
    ensures Grew(queued, list, queued, list)
  {
  }

  lemma GrewByOne(queued0: seq<Key>, list0: seq<Key>, queued: seq<Key>, list: seq<Key>, k: Key)
    requires Grew(queued0, list0, queued, list)
    ensures Grew(queued0, list0, queued + [k], list + [k])
  {
    assert (queued + [k])[|queued0|..] == queued[|queued0|..] + [k];
  }

  lemma GrewTwice(q0: seq<Key>, l0: seq<Key>, q1: seq<Key>, l1: seq<Key>, q2: seq<Key>, l2: seq<Key>)
    requires Grew(q0, l0, q1, l1) && Grew(q1, l1, q2, l2)
    ensures Grew(q0, l0, q2, l2)
  {
    assert q2[|q0|..] == q1[|q0|..] + q2[|q1|..];
  }

  /** What grew from nothing, put behind what grew before. */
  lemma GrewAfter(q0: seq<Key>, l0: seq<Key>, q1: seq<Key>, l1: seq<Key>, q2: seq<Key>, more: seq<Key>)
    requires Grew(q0, l0, q1, l1) && Grew(q1, [], q2, more)
    ensures Grew(q0, l0, q2, l1 + more)
  {
    assert Grew(q1, l1, q2, l1 + more);
    GrewTwice(q0, l0, q1, l1, q2, l1 + more);
  }

  lemma AllGrew(q0: seq<Key>, l0: seq<Key>, q: seq<Key>, l: seq<Key>)
    requires Grew(q0, l0, q, l)
    ensures q0 <= q && l == l0 + q[|q0|..]
  {
  }

  lemma NextServed(served: seq<Key>, l: seq<Key>)
    requires l != []
    ensures served + [l[0]] + l[1..] == served + l
  {
  }

  lemma TakenQueue(l: seq<Key>)
    ensures l + [] == l && [] + l == l
  {
  }

  lemma EmptyQueue(marked: set<Key>)
    requires ReadyOnce([], marked)
    ensures marked == {}
  {
  }

  lemma ConnectedCounts(clients: Clients, c: ClientId, isModule: bool)
    requires c !in clients
    ensures var clients' := clients[c := Client(Unblocked, {}, false, isModule)];
            && (forall kind :: kind != Unblocked ==> OfKind(clients', kind) == OfKind(clients, kind))
            && BlockedRegular(clients') == BlockedRegular(clients)
  {
  }

  lemma ForgetCounts(clients: Clients, byKind: map<Kind, nat>, blocked: nat, c: ClientId)
    requires c in clients && clients[c].kind == Unblocked && KindCounts(clients, byKind, blocked)
    ensures KindCounts(clients - {c}, byKind, blocked)
  {
    assert forall kind :: kind != Unblocked ==> OfKind(clients - {c}, kind) == OfKind(clients, kind);
    assert BlockedRegular(clients - {c}) == BlockedRegular(clients);
  }

  lemma ForgetSound(clients: Clients, waiting: Waiting, noKey: map<Key, nat>, c: ClientId)
    requires TwoWay(clients, waiting) && NoKeyCounts(clients, waiting, noKey)
    requires c in clients && clients[c].keys == {}
    ensures TwoWay(clients - {c}, waiting) && NoKeyCounts(clients - {c}, waiting, noKey)
    ensures forall k :: c !in WaitersOf(waiting, k)
  {
    hide NoKeyCounts, CountAsking, NoRepeats;
    NoKeyFrame(clients, clients - {c}, waiting, noKey);
  }

  lemma NoSignals(turns: seq<Turn>, i: nat)
    ensures turns == [] ==> TurnAt(turns, i).signals == []
  {
  }

  lemma UncountedKinds(clients: Clients, byKind: map<Kind, nat>, blocked: nat, c: ClientId)
    requires c in clients && clients[c].kind != Unblocked && KindCounts(clients, byKind, blocked)
    ensures var kind := clients[c].kind;
            && byKind[kind] >= 1 && (!clients[c].isModule ==> blocked >= 1)
            && KindCounts(clients[c := clients[c].(kind := Unblocked, onNoKey := false)],
                          byKind[kind := byKind[kind] - 1], if clients[c].isModule then blocked else blocked - 1)
  {
    UnblockCounts(clients, c);
  }

  lemma Listed(clients: Clients, waiting: Waiting, c: ClientId, k: Key)
    requires TwoWay(clients, waiting) && c in clients && k in clients[c].keys
    ensures k in waiting && c in waiting[k]
  {
  }

  lemma {:induction false} RemoveAbsent<T>(l: seq<T>, x: T)
    requires x !in l
    ensures Remove(l, x) == l
    decreases |l|
  {
    if l != [] {
      RemoveAbsent(l[1..], x);
    }
  }

  lemma NotWaitingElsewhere(clients: Clients, waiting: Waiting, c: ClientId)
    requires TwoWay(clients, waiting) && c in clients
    ensures forall k :: k !in clients[c].keys ==> Remove(WaitersOf(waiting, k), c) == WaitersOf(waiting, k)
  {
    forall k | k !in clients[c].keys
      ensures Remove(WaitersOf(waiting, k), c) == WaitersOf(waiting, k)
    {
      RemoveAbsent(WaitersOf(waiting, k), c);
    }
  }

  lemma KeySetHas(keys: seq<Key>, k: Key)
    ensures k in KeySet(keys) <==> k in keys
  {
  }

  lemma NoKeys()
    ensures KeySet([]) == {}
  {
  }

  lemma MoreKeys(keys: seq<Key>, j: nat)
    requires j < |keys|
    ensures keys[..j + 1] == keys[..j] + [keys[j]]
    ensures KeySet(keys[..j + 1]) == KeySet(keys[..j]) + {keys[j]}
    ensures forall k :: k in KeySet(keys[..j]) <==> k in keys[..j]
  {
    assert keys[..j + 1] == keys[..j] + [keys[j]];
  }

  lemma SameClient(clients: Clients, c: ClientId)
    requires c in clients
    ensures clients[c := clients[c].(keys := clients[c].keys, onNoKey := clients[c].onNoKey)] == clients
  {
  }

  lemma FewerKeysIdle(clients: Clients, c: ClientId, k: Key)
    requires IdleClients(clients) && c in clients && k in clients[c].keys
    ensures IdleClients(clients[c := clients[c].(keys := clients[c].keys - {k})])
  {
  }

  lemma SetTwice(clients: Clients, c: ClientId, x: Client, y: Client)
    ensures clients[c := x][c := y] == clients[c := y]
  {
  }

  /** The keys' counts depend on the wishes of waiting clients alone. */
  lemma NoKeyFrame(clients: Clients, clients': Clients, waiting: Waiting, noKey: map<Key, nat>)
    requires NoKeyCounts(clients, waiting, noKey)
    requires forall k, c :: k in waiting && c in waiting[k] ==> Asks(clients, c) == Asks(clients', c)
    ensures NoKeyCounts(clients', waiting, noKey)
  {
    hide CountAsking;
    forall k
      ensures CountAsking(clients', WaitersOf(waiting, k)) == CountAsking(clients, WaitersOf(waiting, k))
    {
      CountFrame(clients, clients', WaitersOf(waiting, k));
    }
  }

  /** A client that waits for nothing may change its wish before it waits. */
  lemma FreshSeen(clients: Clients, waiting: Waiting, noKey: map<Key, nat>, c: ClientId, onNoKey: bool)
    requires TwoWay(clients, waiting) && NoKeyCounts(clients, waiting, noKey)
    requires c in clients && clients[c].keys == {}
    ensures TwoWay(clients[c := clients[c].(onNoKey := onNoKey)], waiting)
    ensures NoKeyCounts(clients[c := clients[c].(onNoKey := onNoKey)], waiting, noKey)
  {
    hide NoKeyCounts, CountAsking, NoRepeats;
    NoKeyFrame(clients, clients[c := clients[c].(onNoKey := onNoKey)], waiting, noKey);
  }

  /** Keys and wishes do not enter the counts per kind. */
  lemma FlagKeepsKinds(clients: Clients, c: ClientId, keys: set<Key>, onNoKey: bool, byKind: map<Kind, nat>,
                       blocked: nat)
    requires c in clients && KindCounts(clients, byKind, blocked)
    ensures KindCounts(clients[c := clients[c].(keys := keys, onNoKey := onNoKey)], byKind, blocked)
  {
    var clients' := clients[c := clients[c].(keys := keys, onNoKey := onNoKey)];
    forall kind
      ensures OfKind(clients', kind) == OfKind(clients, kind)
    {
    }
    assert BlockedRegular(clients') == BlockedRegular(clients);
  }

  /** The kind of a client does not enter the indexes. */
  lemma KindIsNotIndexed(clients: Clients, waiting: Waiting, noKey: map<Key, nat>, c: ClientId, kind: Kind)
    requires c in clients && TwoWay(clients, waiting) && NoKeyCounts(clients, waiting, noKey)
    ensures TwoWay(clients[c := clients[c].(kind := kind)], waiting)
    ensures NoKeyCounts(clients[c := clients[c].(kind := kind)], waiting, noKey)
  {
    hide NoKeyCounts, CountAsking, NoRepeats;
    NoKeyFrame(clients, clients[c := clients[c].(kind := kind)], waiting, noKey);
  }

  lemma BlockCounts(clients: Clients, c: ClientId, kind: Kind)
    requires c in clients && clients[c].kind == Unblocked && kind != Unblocked
    ensures var clients' := clients[c := clients[c].(kind := kind)];
            && |OfKind(clients', kind)| == |OfKind(clients, kind)| + 1
            && (forall other :: other != kind && other != Unblocked ==>
                  OfKind(clients', other) == OfKind(clients, other))
            && |BlockedRegular(clients')| == |BlockedRegular(clients)| + if clients[c].isModule then 0 else 1
  {
    var clients' := clients[c := clients[c].(kind := kind)];
    assert OfKind(clients', kind) == OfKind(clients, kind) + {c};
    if clients[c].isModule {
      assert BlockedRegular(clients') == BlockedRegular(clients);
    } else {
      assert BlockedRegular(clients') == BlockedRegular(clients) + {c};
    }
  }

  lemma UnblockCounts(clients: Clients, c: ClientId)
    requires c in clients && clients[c].kind != Unblocked
    ensures var kind := clients[c].kind;
            var clients' := clients[c := clients[c].(kind := Unblocked, onNoKey := false)];
            && |OfKind(clients, kind)| == |OfKind(clients', kind)| + 1
            && (forall other :: other != kind && other != Unblocked ==>
                  OfKind(clients', other) == OfKind(clients, other))
            && |BlockedRegular(clients)| == |BlockedRegular(clients')| + if clients[c].isModule then 0 else 1
  {
    var kind := clients[c].kind;
    var clients' := clients[c := clients[c].(kind := Unblocked, onNoKey := false)];
    assert OfKind(clients, kind) == OfKind(clients', kind) + {c};
    if clients[c].isModule {
      assert BlockedRegular(clients') == BlockedRegular(clients);
    } else {
      assert BlockedRegular(clients) == BlockedRegular(clients') + {c};
    }
  }

  // ---- The server ----

  class Server {
    var clients: Clients
    var blockingKeys: Waiting
    var noKeyCounts: map<Key, nat>
    var blockedByKind: map<Kind, nat>
    var blockedClients: nat
    var readyKeys: seq<Key>
    ghost var queued: seq<Key>  // every key ever queued, in order
    var readyMarks: set<Key>

    ghost predicate Indexed()
      reads this`clients, this`blockingKeys, this`noKeyCounts
    {
      TwoWay(clients, blockingKeys) && NoKeyCounts(clients, blockingKeys, noKeyCounts)
    }

    ghost predicate Counted()
      reads this`clients, this`blockedByKind, this`blockedClients
    {
      KindCounts(clients, blockedByKind, blockedClients) && IdleClients(clients)
    }

    /** Between two operations; `held` are keys already taken off the queue for serving. */
    ghost predicate ValidHolding(held: seq<Key>)
      reads this
    {
      Indexed() && Counted() && ReadyOnce(held + readyKeys, readyMarks)
    }

    ghost predicate Valid()
      reads this
    {
      Indexed() && Counted() && ReadyOnce(readyKeys, readyMarks)
    }

    constructor ()
      ensures Valid() && clients == map[]
    {
      clients, blockingKeys, noKeyCounts := map[], map[], map[];
      blockedByKind := ZeroCounts();
      blockedClients := 0;
      readyKeys, readyMarks, queued := [], {}, [];
      new;
      NobodyBlocked();
    }

    /** Count a client as blocked. */
    method BlockClient(c: ClientId, kind: Kind)
      requires c in clients && clients[c].kind == Unblocked && kind != Unblocked
      requires KindCounts(clients, blockedByKind, blockedClients)
      modifies this`clients, this`blockedByKind, this`blockedClients
      ensures clients == old(clients)[c := old(clients[c]).(kind := kind)]
      ensures KindCounts(clients, blockedByKind, blockedClients)
    {
      BlockCounts(clients, c, kind);
      clients := clients[c := clients[c].(kind := kind)];
      if !clients[c].isModule {
        blockedClients := blockedClients + 1;
      }
      blockedByKind := blockedByKind[kind := blockedByKind[kind] + 1];
    }

    /** The client as the indexes see it while its keys are being added or released. */
    ghost function Seen(c: ClientId, keys: set<Key>, onNoKey: bool): Clients
      requires c in clients
      reads this`clients
    {
      clients[c := clients[c].(keys := keys, onNoKey := onNoKey)]
    }

    /** Put a client at the end of the waiting list of one key. */
    method WaitForKey(c: ClientId, k: Key, unblockOnNoKey: bool)
      requires c in clients && k !in clients[c].keys
      requires TwoWay(Seen(c, clients[c].keys, unblockOnNoKey), blockingKeys)
      requires NoKeyCounts(Seen(c, clients[c].keys, unblockOnNoKey), blockingKeys, noKeyCounts)
      modifies this`clients, this`blockingKeys, this`noKeyCounts
      ensures clients == old(clients)[c := old(clients[c]).(keys := old(clients[c]).keys + {k})]
      ensures blockingKeys == old(blockingKeys)[k := WaitersOf(old(blockingKeys), k) + [c]]
      ensures TwoWay(Seen(c, clients[c].keys, unblockOnNoKey), blockingKeys)
      ensures NoKeyCounts(Seen(c, clients[c].keys, unblockOnNoKey), blockingKeys, noKeyCounts)
    {
      hide TwoWay, NoKeyCounts;
      ghost var seen := Seen(c, clients[c].keys, unblockOnNoKey);
      AddKeepsTwoWay(seen, blockingKeys, c, k);
      AddKeepsNoKey(seen, blockingKeys, noKeyCounts, c, k);
      clients := clients[c := clients[c].(keys := clients[c].keys + {k})];
      var l := if k in blockingKeys then blockingKeys[k] else [];
      blockingKeys := blockingKeys[k := l + [c]];
      if unblockOnNoKey {
        noKeyCounts := noKeyCounts[k := (if k in noKeyCounts then noKeyCounts[k] else 0) + 1];
      }
      assert Seen(c, clients[c].keys, unblockOnNoKey) == seen[c := seen[c].(keys := seen[c].keys + {k})];
    }

    /** Put a client that waits for nothing on the lists of all these keys. */
    method WaitForKeys(c: ClientId, keys: seq<Key>, unblockOnNoKey: bool)
      requires c in clients && clients[c].keys == {}
      requires TwoWay(Seen(c, {}, unblockOnNoKey), blockingKeys)
      requires NoKeyCounts(Seen(c, {}, unblockOnNoKey), blockingKeys, noKeyCounts)
      modifies this`clients, this`blockingKeys, this`noKeyCounts
      ensures clients == old(clients)[c := old(clients[c]).(keys := KeySet(keys))]
      ensures TwoWay(Seen(c, KeySet(keys), unblockOnNoKey), blockingKeys)
      ensures NoKeyCounts(Seen(c, KeySet(keys), unblockOnNoKey), blockingKeys, noKeyCounts)
      ensures JoinedLists(old(blockingKeys), blockingKeys, c, KeySet(keys))
    {
      NoKeys();
      JoinedNone(blockingKeys, c);
      hide TwoWay, NoKeyCounts, KeySet, WaitersOf, JoinedLists;
      var j := 0;
      assert keys[..0] == [];
      assert clients == clients[c := clients[c].(keys := {})];
      while j < |keys|
        invariant 0 <= j <= |keys| && c in clients
        invariant clients == old(clients)[c := old(clients[c]).(keys := KeySet(keys[..j]))]
        invariant TwoWay(Seen(c, clients[c].keys, unblockOnNoKey), blockingKeys)
        invariant NoKeyCounts(Seen(c, clients[c].keys, unblockOnNoKey), blockingKeys, noKeyCounts)
        invariant JoinedLists(old(blockingKeys), blockingKeys, c, clients[c].keys)
      {
        MoreKeys(keys, j);
        if keys[j] !in clients[c].keys {
          JoinedMore(old(blockingKeys), blockingKeys, c, clients[c].keys, keys[j]);
          WaitForKey(c, keys[j], unblockOnNoKey);
          SetTwice(old(clients), c, old(clients[c]).(keys := KeySet(keys[..j])), clients[c]);
        } else {
          assert KeySet(keys[..j]) + {keys[j]} == KeySet(keys[..j]);
        }
        j := j + 1;
      }
      assert keys[..j] == keys;
    }

    /** Block a client on keys: it waits last in the list of each, once even if a key is repeated. */
    method BlockForKeys(c: ClientId, kind: Kind, keys: seq<Key>, unblockOnNoKey: bool)
      requires Indexed() && Counted()
      requires c in clients && clients[c].kind == Unblocked && WaitsForKeys(kind)
      modifies this`clients, this`blockingKeys, this`noKeyCounts, this`blockedByKind, this`blockedClients
      ensures Indexed() && Counted()
      ensures clients == old(clients)[c := Client(kind, KeySet(keys), unblockOnNoKey, old(clients[c]).isModule)]
      ensures JoinedLists(old(blockingKeys), blockingKeys, c, KeySet(keys))
    {
      hide TwoWay, NoKeyCounts, KindCounts, KeySet, WaitersOf, JoinedLists;
      ghost var before := clients;
      FreshSeen(clients, blockingKeys, noKeyCounts, c, unblockOnNoKey);
      assert clients[c].(keys := {}, onNoKey := unblockOnNoKey) == clients[c].(onNoKey := unblockOnNoKey);
      WaitForKeys(c, keys, unblockOnNoKey);
      SetTwice(before, c, clients[c], clients[c].(onNoKey := unblockOnNoKey));
      clients := clients[c := clients[c].(onNoKey := unblockOnNoKey)];
      FlagKeepsKinds(before, c, KeySet(keys), unblockOnNoKey, blockedByKind, blockedClients);
      KindIsNotIndexed(clients, blockingKeys, noKeyCounts, c, kind);
      SetTwice(before, c, clients[c], clients[c].(kind := kind));
      BlockClient(c, kind);
    }

    /** Take a client off the list of one of its keys, with the key counts and the empty lists. */
    method ReleaseBlockedEntry(c: ClientId, k: Key, ghost left: set<Key>)
      requires c in clients && k in left
      requires TwoWay(Seen(c, left, clients[c].onNoKey), blockingKeys)
      requires NoKeyCounts(Seen(c, left, clients[c].onNoKey), blockingKeys, noKeyCounts)
      modifies this`blockingKeys, this`noKeyCounts
      ensures TwoWay(Seen(c, left - {k}, clients[c].onNoKey), blockingKeys)
      ensures NoKeyCounts(Seen(c, left - {k}, clients[c].onNoKey), blockingKeys, noKeyCounts)
      ensures k in old(blockingKeys) && blockingKeys == ReleasedWaiting(old(blockingKeys), c, k)
    {
      hide TwoWay, NoKeyCounts;
      ghost var seen := Seen(c, left, clients[c].onNoKey);
      ReleaseSound(seen, blockingKeys, noKeyCounts, c, k);
      SetTwice(clients, c, seen[c], seen[c].(keys := left - {k}));
      var l := Remove(blockingKeys[k], c);
      if |l| == 0 {
        noKeyCounts := noKeyCounts - {k};
        blockingKeys := blockingKeys - {k};
      } else {
        if clients[c].onNoKey {
          if noKeyCounts[k] == 1 {
            noKeyCounts := noKeyCounts - {k};
          } else {
            noKeyCounts := noKeyCounts[k := noKeyCounts[k] - 1];
          }
        }
        blockingKeys := blockingKeys[k := l];
      }
    }

    /** Release every key of a client, in any order, then forget them at once. */
    method UnblockWaitingData(c: ClientId)
      requires c in clients && Indexed()
      modifies this`clients, this`blockingKeys, this`noKeyCounts
      ensures Indexed()
      ensures clients == old(clients)[c := old(clients[c]).(keys := {})]
      ensures LeftLists(old(blockingKeys), blockingKeys, c, {})
    {
      ghost var before := blockingKeys;
      NotLeftYet(clients, blockingKeys, c);
      hide TwoWay, NoKeyCounts, ReleasedWaiting, Remove, WaitersOf, LeftLists;
      var left := clients[c].keys;
      assert clients[c].(keys := left) == clients[c];
      assert clients == Seen(c, left, clients[c].onNoKey);
      while left != {}
        invariant clients == old(clients) && c in clients
        invariant left <= clients[c].keys
        invariant TwoWay(Seen(c, left, clients[c].onNoKey), blockingKeys)
        invariant NoKeyCounts(Seen(c, left, clients[c].onNoKey), blockingKeys, noKeyCounts)
        invariant LeftLists(before, blockingKeys, c, left)
        decreases left
      {
        var k :| k in left;
        ghost var now := blockingKeys;
        ReleaseBlockedEntry(c, k, left);
        ReleasedWaiters(before, now, c, k, left);
        left := left - {k};
      }
      clients := clients[c := clients[c].(keys := {})];
    }

    /** Unblock a client: it leaves every list and every count. */
    method UnblockClient(c: ClientId)
      requires Indexed() && Counted()
      requires c in clients && clients[c].kind != Unblocked
      modifies this`clients, this`blockingKeys, this`noKeyCounts, this`blockedByKind, this`blockedClients
      ensures Indexed() && Counted()
      ensures clients == old(clients)[c := Client(Unblocked, {}, false, old(clients[c]).isModule)]
      ensures LeftLists(old(blockingKeys), blockingKeys, c, {})
    {
      ghost var before := clients;
      NotLeftYet(clients, blockingKeys, c);
      hide TwoWay, NoKeyCounts, KindCounts, LeftLists;
      if WaitsForKeys(clients[c].kind) {
        UnblockWaitingData(c);
        FlagKeepsKinds(before, c, {}, before[c].onNoKey, blockedByKind, blockedClients);
        assert before[c].(keys := {}, onNoKey := before[c].onNoKey) == before[c].(keys := {});
        SetTwice(before, c, clients[c], Client(Unblocked, {}, false, before[c].isModule));
      }
      UncountClient(c);
    }

    /** Block a client on something other than keys. */
    method BlockOnOther(c: ClientId, kind: Kind)
      requires Indexed() && Counted()
      requires c in clients && clients[c].kind == Unblocked && kind != Unblocked && !WaitsForKeys(kind)
      modifies this`clients, this`blockedByKind, this`blockedClients
      ensures Indexed() && Counted()
      ensures clients == old(clients)[c := old(clients[c]).(kind := kind)]
    {
      KindIsNotIndexed(clients, blockingKeys, noKeyCounts, c, kind);
      hide TwoWay, NoKeyCounts, KindCounts;
      BlockClient(c, kind);
    }

    /** A client connects. */
    method Connect(c: ClientId, isModule: bool)
      requires Indexed() && Counted() && c !in clients
      modifies this`clients
      ensures Indexed() && Counted()
      ensures clients == old(clients)[c := Client(Unblocked, {}, false, isModule)]
    {
      ConnectedCounts(clients, c, isModule);
      NoKeyFrame(clients, clients[c := Client(Unblocked, {}, false, isModule)], blockingKeys, noKeyCounts);
      hide NoKeyCounts, NoRepeats, OfKind, BlockedRegular;
      clients := clients[c := Client(Unblocked, {}, false, isModule)];
    }

    /** A client is freed: it is unblocked first if it is blocked. */
    method Disconnect(c: ClientId)
      requires Indexed() && Counted() && c in clients
      modifies this`clients, this`blockingKeys, this`noKeyCounts, this`blockedByKind, this`blockedClients
      ensures Indexed() && Counted()
      ensures clients == old(clients) - {c}
      ensures forall k :: c !in WaitersOf(blockingKeys, k)
    {
      hide TwoWay, NoKeyCounts, KindCounts, LeftLists, WaitersOf;
      if clients[c].kind != Unblocked {
        UnblockClient(c);
      }
      ForgetSound(clients, blockingKeys, noKeyCounts, c);
      ForgetCounts(clients, blockedByKind, blockedClients, c);
      clients := clients - {c};
    }

    /** The last part: the client stops counting as blocked. */
    method UncountClient(c: ClientId)
      requires Indexed() && KindCounts(clients, blockedByKind, blockedClients)
      requires c in clients && clients[c].kind != Unblocked && clients[c].keys == {}
      requires forall o :: o in clients && o != c && !WaitsForKeys(clients[o].kind) ==>
                 clients[o].keys == {} && !clients[o].onNoKey
      modifies this`clients, this`blockedByKind, this`blockedClients
      ensures Indexed() && Counted()
      ensures clients == old(clients)[c := Client(Unblocked, {}, false, old(clients[c]).isModule)]
    {
      UncountedKinds(clients, blockedByKind, blockedClients, c);
      FreshSeen(clients, blockingKeys, noKeyCounts, c, false);
      KindIsNotIndexed(clients[c := clients[c].(onNoKey := false)], blockingKeys, noKeyCounts, c, Unblocked);
      hide TwoWay, NoKeyCounts, KindCounts;
      var kind := clients[c].kind;
      if !clients[c].isModule {
        blockedClients := blockedClients - 1;
      }
      blockedByKind := blockedByKind[kind := blockedByKind[kind] - 1];
      SetTwice(clients, c, clients[c].(onNoKey := false), clients[c].(kind := Unblocked, onNoKey := false));
      clients := clients[c := clients[c].(kind := Unblocked, onNoKey := false)];
    }

    /** Release one key of a client and forget it, on both sides. */
    method ReleaseAndForget(c: ClientId, k: Key)
      requires Indexed() && Counted()
      requires c in clients && k in clients[c].keys
      modifies this`clients, this`blockingKeys, this`noKeyCounts
      ensures Indexed() && Counted()
      ensures clients == old(clients)[c := old(clients[c]).(keys := old(clients[c]).keys - {k})]
      ensures LeftLists(old(blockingKeys), blockingKeys, c, old(clients[c]).keys - {k})
    {
      hide TwoWay, NoKeyCounts, KindCounts, IdleClients, LeftLists, ReleasedWaiting;
      ghost var before, lists := clients, blockingKeys;
      ghost var rest := clients[c].keys - {k};
      NotLeftYet(clients, blockingKeys, c);
      SameClient(clients, c);
      ReleaseBlockedEntry(c, k, clients[c].keys);
      ReleasedWaiters(lists, lists, c, k, before[c].keys);
      FlagKeepsKinds(before, c, rest, before[c].onNoKey, blockedByKind, blockedClients);
      FewerKeysIdle(before, c, k);
      clients := clients[c := clients[c].(keys := clients[c].keys - {k})];
      assert clients == before[c := before[c].(keys := rest, onNoKey := before[c].onNoKey)];
    }

    /** Unblock a client because one of its keys became available: that key first, then the rest. */
    method UnblockClientOnKey(c: ClientId, k: Key)
      requires Indexed() && Counted()
      requires c in clients && k in clients[c].keys
      modifies this`clients, this`blockingKeys, this`noKeyCounts, this`blockedByKind, this`blockedClients
      ensures Indexed() && Counted()
      ensures clients == old(clients)[c := Client(Unblocked, {}, false, old(clients[c]).isModule)]
      ensures LeftLists(old(blockingKeys), blockingKeys, c, {})
    {
      hide TwoWay, NoKeyCounts, KindCounts, LeftLists;
      ReleaseAndForget(c, k);
      ghost var mid, released := clients, blockingKeys;
      SetTwice(old(clients), c, mid[c], Client(Unblocked, {}, false, mid[c].isModule));
      UnblockClient(c);
      LeftRest(mid, old(blockingKeys), released, blockingKeys, c);
    }

    /**
      A key changed, or was deleted: queue it when somebody may be waiting for it.  `held`
      are the keys being served, already off the queue but still marked.
    */
    method SignalKeyAsReady(k: Key, t: ValueType, deleted: bool, ghost held: seq<Key>)
      requires ValidHolding(held)
      modifies this`readyKeys, this`readyMarks, this`queued
      ensures ValidHolding(held)
      ensures if Queues(clients, k, t, deleted) && k !in held + old(readyKeys)
              then readyKeys == old(readyKeys) + [k] && queued == old(queued) + [k]
              else readyKeys == old(readyKeys) && queued == old(queued)
    {
      WaiterFound(clients, blockingKeys, noKeyCounts, k);
      QueuesByCounts(clients, blockedByKind, blockedClients, k, t, deleted);
      hide Indexed, Counted, ReadyOnce, HasWaiter, Queues, KindOf;
      MarkedIsQueued(held + readyKeys, readyMarks, k);
      var kind := KindOf(t);
      if kind == Unblocked {
        return;
      }
      if blockedByKind[kind] == 0 && blockedByKind[OnModule] == 0 {
        return;
      }
      if deleted {
        if k !in noKeyCounts {
          return;
        }
      } else if k !in blockingKeys {
        return;
      }
      if k in readyMarks {
        return;
      }
      QueueMore(held + readyKeys, readyMarks, k);
      assert held + (readyKeys + [k]) == held + readyKeys + [k];
      readyMarks := readyMarks + {k};
      readyKeys := readyKeys + [k];
      queued := queued + [k];
    }

    /** The signals of one command. */
    method SignalAll(signals: seq<Signal>, ghost held: seq<Key>)
      requires ValidHolding(held)
      modifies this`readyKeys, this`readyMarks, this`queued
      ensures ValidHolding(held)
      ensures Grew(old(queued), old(readyKeys), queued, readyKeys)
      ensures signals == [] ==> readyKeys == old(readyKeys)
    {
      hide ValidHolding, Queues;
      NothingGrew(queued, readyKeys);
      for i := 0 to |signals|
        invariant ValidHolding(held)
        invariant Grew(old(queued), old(readyKeys), queued, readyKeys) && (i == 0 ==> readyKeys == old(readyKeys))
      {
        GrewByOne(old(queued), old(readyKeys), queued, readyKeys, signals[i].key);
        SignalKeyAsReady(signals[i].key, signals[i].value, signals[i].deleted, held);
      }
    }

    /** The turn of one waiter of key k. */
    method ServeReceiver(c: ClientId, k: Key, turn: Turn, ghost held: seq<Key>)
      requires ValidHolding(held) && c in clients && k in clients[c].keys
      modifies this
      ensures ValidHolding(held)
      ensures clients == old(clients)[c := Afterwards(old(clients[c]), turn)]
      ensures WaitersOf(blockingKeys, k) == ListAfter(WaitersOf(old(blockingKeys), k), c, old(clients[c]), turn, k)
      ensures Grew(old(queued), old(readyKeys), queued, readyKeys)
      ensures turn.signals == [] ==> readyKeys == old(readyKeys)
    {
      hide TwoWay, NoKeyCounts, KindCounts, IdleClients, ReadyOnce, Remove, WaitersOf, KeySet;
      ghost var before := clients;
      NothingGrew(queued, readyKeys);
      if Picked(clients[c], turn) {
        if clients[c].kind != OnModule {
          UnblockClientOnKey(c, k);
          SignalAll(turn.signals, held);
          if turn.again.Some? {
            var wait := turn.again.value;
            KeySetHas(wait.keys, k);
            SetTwice(before, c, clients[c], Client(wait.kind, KeySet(wait.keys), wait.onNoKey, clients[c].isModule));
            BlockForKeys(c, wait.kind, wait.keys, wait.onNoKey);
          }
        } else {
          SignalAll(turn.signals, held);
        }
      }
    }

    /**
      Serve the waiters of a key: each one waiting now gets one turn, in the order they
      blocked; those that do not fit keep their place; those that block again go last.
    */
    method HandleClientsBlockedOnKey(k: Key, turns: seq<Turn>, ghost held: seq<Key>)
      requires ValidHolding(held)
      modifies this
      ensures ValidHolding(held)
      ensures forall c :: c in WaitersOf(old(blockingKeys), k) ==> c in old(clients)
      ensures var w := WaitersOf(old(blockingKeys), k);
              && WaitersOf(blockingKeys, k)
              == Kept(old(clients), w, turns, |w|) + Rejoined(old(clients), w, turns, k, |w|)
              && HadTurns(old(clients), clients, w, turns, |w|)
      ensures Grew(old(queued), old(readyKeys), queued, readyKeys)
      ensures turns == [] ==> readyKeys == old(readyKeys)
    {
      ghost var before := clients;
      WaitersKnown(clients, blockingKeys, k);
      hide *;
      var w := WaitersOf(blockingKeys, k);
      MidwayStart(clients, w, turns, k);
      NothingGrew(queued, readyKeys);
      var i, p := 0, 0;
      while p < |WaitersOf(blockingKeys, k)| && i < |w|
        invariant i <= |w| && ValidHolding(held)
        invariant Midway(before, clients, WaitersOf(blockingKeys, k), w, turns, k, i, p)
        invariant Grew(old(queued), old(readyKeys), queued, readyKeys)
        invariant turns == [] ==> readyKeys == old(readyKeys)
        decreases |w| - i
      {
        ListedWaiter(k, p, held);
        MidwayStep(before, clients, WaitersOf(blockingKeys, k), w, turns, k, i, p);
        var c, turn := WaitersOf(blockingKeys, k)[p], TurnAt(turns, i);
        NoSignals(turns, i);
        if !Leaves(clients[c], turn) {
          p := p + 1;
        }
        ghost var before', ready := queued, readyKeys;
        ServeReceiver(c, k, turn, held);
        GrewTwice(old(queued), old(readyKeys), before', ready, queued, readyKeys);
        i := i + 1;
      }
      MidwayEnd(before, clients, WaitersOf(blockingKeys, k), w, turns, k, i, p);
    }

    /** Take the next key off the round being served, and its mark, then serve its waiters. */
    method ServeNext(l: seq<Key>, turns: seq<Turn>)
      requires l != [] && ValidHolding(l)
      modifies this
      ensures ValidHolding(l[1..])
      ensures Grew(old(queued), old(readyKeys), queued, readyKeys)
      ensures turns == [] ==> readyKeys == old(readyKeys)
    {
      hide Indexed, Counted, ReadyOnce, NoRepeats, HadTurns, Kept, Rejoined, TwoWay;
      NextOffQueue(l, readyKeys, readyMarks);
      readyMarks := readyMarks - {l[0]};
      HandleClientsBlockedOnKey(l[0], turns, l[1..]);
    }

    /** One round: the queue is taken as it stands, and a new one gathers what is signalled meanwhile. */
    method ServeRound(script: seq<seq<Turn>>, n: nat) returns (next: nat, served: seq<Key>)
      requires Valid() && n <= |script| && readyKeys != []
      modifies this
      ensures Valid() && n <= next <= |script|
      ensures served == old(readyKeys) && Grew(old(queued), [], queued, readyKeys)
      ensures next == n ==> readyKeys == []
    {
      hide *;
      var l := TakeQueue();
      next, served := n, [];
      TakenQueue(l);
      NothingGrew(queued, []);
      while l != []
        invariant n <= next <= |script| && ValidHolding(l)
        invariant served + l == old(readyKeys) && Grew(old(queued), [], queued, readyKeys)
        invariant next == n ==> readyKeys == [] && (n == |script| || l != [])
        decreases |l|
      {
        ghost var before, ready := queued, readyKeys;
        if next < |script| {
          ServeNext(l, script[next]);
          next := next + 1;
        } else {
          ServeNext(l, []);
        }
        GrewTwice(old(queued), [], before, ready, queued, readyKeys);
        NextServed(served, l);
        served, l := served + [l[0]], l[1..];
      }
      RoundOver();
      TakenQueue(served);
    }

    /** The queue moves to a list of its own and a fresh one takes its place. */
    method TakeQueue() returns (l: seq<Key>)
      requires Valid()
      modifies this`readyKeys
      ensures l == old(readyKeys) && readyKeys == [] && ValidHolding(l)
    {
      hide Indexed, Counted, ReadyOnce;
      l := readyKeys;
      TakenQueue(l);
      readyKeys := [];
    }

    lemma RoundOver()
      requires ValidHolding([])
      ensures Valid()
    {
      hide Indexed, Counted, ReadyOnce;
      TakenQueue(readyKeys);
    }

    /**
      Serve until no key is ready.  Each key handed out takes the next list of turns of the
      script, and after those no command signals anything.  The keys handed out are those
      queued at the start and then all keys queued meanwhile, in the order they were queued.
    */
    method HandleClientsBlockedOnKeys(script: seq<seq<Turn>>) returns (served: seq<Key>)
      requires Valid()
      modifies this
      ensures Valid() && readyKeys == [] && readyMarks == {}
      ensures old(queued) <= queued && served == old(readyKeys) + queued[|old(queued)|..]
    {
      hide Indexed, Counted, ReadyOnce, Grew;
      var n := 0;
      served := [];
      NothingGrew(queued, readyKeys);
      TakenQueue(readyKeys);
      while readyKeys != []
        invariant n <= |script| && Valid()
        invariant Grew(old(queued), old(readyKeys), queued, served + readyKeys)
        decreases |script| - n, |readyKeys|
      {
        ghost var before, ready := queued, readyKeys;
        var round;
        n, round := ServeRound(script, n);
        GrewAfter(old(queued), old(readyKeys), before, served + ready, queued, readyKeys);
        served := served + round;
      }
      TakenQueue(served);
      AllGrew(old(queued), old(readyKeys), queued, served);
      EmptyQueue(readyMarks);
    }

    lemma ListedWaiter(k: Key, p: nat, held: seq<Key>)
      requires ValidHolding(held) && p < |WaitersOf(blockingKeys, k)|
      ensures NoRepeats(WaitersOf(blockingKeys, k))
      ensures var c := WaitersOf(blockingKeys, k)[p];
              c in clients && k in clients[c].keys
    {
      WaitersKnown(clients, blockingKeys, k);
    }
  }
}
