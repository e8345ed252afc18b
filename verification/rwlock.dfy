/** The reader/writer lock hooks as interleaved steps.  Every hook finds the
    host lock under one mutex and then, outside it, calls the host lock; so a
    hook is one or two steps, and the steps of different threads interleave
    in any order. */
module RwLock {
  import opened Words

  type Thread = nat
  type Guest = nat
  type HostLock = nat

  datatype Hold = Hold(thread: Thread, guest: Guest, host: HostLock, write: bool)

  /** What a thread does between the two steps of a hook. */
  datatype Pending =
    | Locking(guest: Guest, host: HostLock, write: bool)
    | Unlocking(guest: Guest, host: HostLock)

  /** `table` is `g_rwlock_map`; `live` the host locks initialised and not yet
      freed; `fault` says that a thread has used a freed host lock, or released
      one that it did not hold. */
  datatype State = State(
    table: map<Guest, HostLock>, live: set<HostLock>,
    holds: multiset<Hold>, pending: map<Thread, Pending>, fault: bool)

  const START := State(map[], {}, multiset{}, map[], false)

  /** `room` is the address the allocator would give a new host lock. */
  datatype Action =
    | Init(thread: Thread, guest: Guest, room: HostLock)
    | StartLock(thread: Thread, guest: Guest, write: bool, room: HostLock)
    | Acquire(thread: Thread)
    | StartUnlock(thread: Thread, guest: Guest)
    | Release(thread: Thread)
    | Destroy(thread: Thread, guest: Guest)

  /** `get_host_rwlock` with `create_if_missing`. */
  function Find(st: State, guest: Guest, room: HostLock): (State, HostLock) {
    if guest in st.table then (st, st.table[guest])
    else (st.(table := st.table[guest := room], live := st.live + {room}), room)
  }

  /** A live host lock lets a reader in when no writer holds it, a writer when nobody does. */
  predicate Grants(st: State, host: HostLock, write: bool) {
    forall h | h in st.holds && h.host == host :: !h.write && !write
  }

  /** The steps the host allows: a thread runs one hook at a time, the allocator
      never returns memory in use, and a lock is granted only when free. */
  predicate Enabled(st: State, act: Action) {
    match act
    case Init(t, g, room) => t !in st.pending && room !in st.live
    case StartLock(t, g, w, room) => t !in st.pending && room !in st.live
    case Acquire(t) =>
      && t in st.pending && st.pending[t].Locking?
      && (st.pending[t].host in st.live ==> Grants(st, st.pending[t].host, st.pending[t].write))
    case StartUnlock(t, g) => t !in st.pending
    case Release(t) => t in st.pending && st.pending[t].Unlocking?
    case Destroy(t, g) => t !in st.pending
  }

  predicate Holds(st: State, t: Thread, g: Guest) {
    exists h | h in st.holds :: h.thread == t && h.guest == g
  }

  /** Somebody holds the guest lock or is in the middle of a hook on it. */
  predicate InUse(st: State, g: Guest) {
    || (exists h | h in st.holds :: h.guest == g)
    || (exists t | t in st.pending :: st.pending[t].guest == g)
  }

  /** What the guest must respect: release only what it holds, destroy only what nobody uses. */
  predicate Disciplined(st: State, act: Action) {
    match act
    case StartUnlock(t, g) => Holds(st, t, g)
    case Destroy(t, g) => !InUse(st, g)
    case _ => true
  }

  function Forget(pending: map<Thread, Pending>, t: Thread): map<Thread, Pending> {
    map u | u in pending && u != t :: pending[u]
  }

  function Next(st: State, act: Action): State {
    match act
    case Init(t, g, room) => Find(st, g, room).0
    case StartLock(t, g, w, room) =>
      var (st1, host) := Find(st, g, room);
      st1.(pending := st1.pending[t := Locking(g, host, w)])
    case Acquire(t) =>
      if t in st.pending && st.pending[t].Locking? then
        var p := st.pending[t];
        if p.host in st.live then
          st.(holds := st.holds + multiset{Hold(t, p.guest, p.host, p.write)}, pending := Forget(st.pending, t))
        else st.(fault := true, pending := Forget(st.pending, t))
      else st
    case StartUnlock(t, g) =>
      if g in st.table then st.(pending := st.pending[t := Unlocking(g, st.table[g])]) else st
    case Release(t) =>
      if t in st.pending && st.pending[t].Unlocking? then
        var p := st.pending[t];
        var w, r := Hold(t, p.guest, p.host, true), Hold(t, p.guest, p.host, false);
        var st1 := st.(pending := Forget(st.pending, t));
        if p.host in st.live && w in st.holds then st1.(holds := st.holds - multiset{w})
        else if p.host in st.live && r in st.holds then st1.(holds := st.holds - multiset{r})
        else st1.(fault := true)
      else st
    case Destroy(t, g) =>
      if g in st.table then
        st.(table := map k | k in st.table && k != g :: st.table[k], live := st.live - {st.table[g]})
      else st
  }

  /** The shared table itself.  Each method runs under the mutex, so it is one step. */
  class LockTable {
    var table: map<Guest, HostLock>
    var live: set<HostLock>

    /** The table as a state in which no thread holds or does anything. */
    function View(): State
      reads this
    {
      START.(table := table, live := live)
    }

    constructor ()
      ensures View() == START
    {
      table, live := map[], {};
    }

    /** `get_host_rwlock`. */
    method GetHostLock(guest: Guest, create: bool, room: HostLock) returns (host: Option<HostLock>)
      modifies this
      ensures create ==> host.Some? && (View(), host.value) == Find(old(View()), guest, room)
      ensures !create ==> View() == old(View()) && host == if guest in old(table) then Some(old(table)[guest]) else None
    {
      if guest in table {
        return Some(table[guest]);
      }
      if create {
        live := live + {room};
        table := table[guest := room];
        return Some(room);
      }
      return None;
    }

    /** `hook_pthread_rwlock_destroy`. */
    method Destroy(thread: Thread, guest: Guest)
      modifies this
      ensures View() == Next(old(View()), Action.Destroy(thread, guest))
    {
      if guest in table {
        live := live - {table[guest]};
        table := map k | k in table && k != guest :: table[k];
      }
    }
  }

  // Invariant ------------------------------------------------------------------------------------

  /** The table maps the guests' locks one to one onto the live host locks. */
  ghost predicate OneToOne(st: State) {
    && st.table.Values == st.live
    && forall g, k | g in st.table && k in st.table && st.table[g] == st.table[k] :: g == k
  }

  predicate Names(st: State, g: Guest, host: HostLock) {
    g in st.table && st.table[g] == host
  }

  /** Every hold and every hook under way is on the host lock the table names. */
  ghost predicate Current(st: State) {
    && (forall h | h in st.holds :: Names(st, h.guest, h.host))
    && (forall t | t in st.pending :: Names(st, st.pending[t].guest, st.pending[t].host))
    && (forall t | t in st.pending && st.pending[t].Unlocking? :: Holds(st, t, st.pending[t].guest))
  }

  ghost predicate HostExclusive(st: State) {
    forall h, k | h in st.holds && k in st.holds && h.host == k.host && h.write :: h == k && st.holds[h] == 1
  }

  /** A guest lock held for writing is held once. */
  ghost predicate GuestExclusive(st: State) {
    forall h, k | h in st.holds && k in st.holds && h.guest == k.guest && h.write :: h == k && st.holds[h] == 1
  }

  ghost predicate Inv(st: State) {
    OneToOne(st) && Current(st) && HostExclusive(st) && !st.fault
  }

  lemma FindKeepsInv(st: State, g: Guest, room: HostLock)
    requires Inv(st) && room !in st.live
    ensures var (st1, host) := Find(st, g, room);
            && Inv(st1) && Names(st1, g, host) && st1.holds == st.holds && st1.pending == st.pending
  {
    if g !in st.table {
      AddKeepsOneToOne(st, g, room);
      var st1 := Find(st, g, room).0;
      hide OneToOne;
      assert forall k, h | Names(st, k, h) :: Names(st1, k, h);
      assert forall t, k | Holds(st, t, k) :: Holds(st1, t, k);
    }
  }

  lemma AddKeepsOneToOne(st: State, g: Guest, room: HostLock)
    requires OneToOne(st) && g !in st.table && room !in st.live
    ensures OneToOne(st.(table := st.table[g := room], live := st.live + {room}))
  {
    var table := st.table[g := room];
    forall k | k in st.table
      ensures st.table[k] != room && table[k] == st.table[k]
    {
      assert st.table[k] in st.table.Values;
    }
    forall h: HostLock | h in st.live + {room}
      ensures h in table.Values
    {
      if h == room {
        assert table[g] == room;
      } else {
        var k :| k in st.table && st.table[k] == h;
        assert table[k] == h;
      }
    }
  }

  lemma AcquireKeepsInv(st: State, t: Thread)
    requires Inv(st) && Enabled(st, Acquire(t))
    ensures Inv(Next(st, Acquire(t)))
  {
    var p, st1 := st.pending[t], Next(st, Acquire(t));
    assert Names(st, p.guest, p.host);
    assert p.host in st.table.Values;
    var h := Hold(t, p.guest, p.host, p.write);
    assert forall k :: k in st1.holds <==> k in st.holds || k == h;
    assert forall u, g | Holds(st, u, g) :: Holds(st1, u, g);
  }

  lemma ReleaseKeepsInv(st: State, t: Thread)
    requires Inv(st) && Enabled(st, Release(t))
    ensures Inv(Next(st, Release(t)))
  {
    var p := st.pending[t];
    assert Names(st, p.guest, p.host) && p.host in st.table.Values;
    assert Holds(st, t, p.guest);
    var h :| h in st.holds && h.thread == t && h.guest == p.guest;
    assert h == Hold(t, p.guest, p.host, h.write);
    var w, r := Hold(t, p.guest, p.host, true), Hold(t, p.guest, p.host, false);
    var gone := if w in st.holds then w else r;
    assert gone in st.holds;
    assert Next(st, Release(t)) == st.(pending := Forget(st.pending, t), holds := st.holds - multiset{gone});
    hide Next;
    DropHold(st, t, gone);
  }

  lemma DropHold(st: State, t: Thread, gone: Hold)
    requires Inv(st) && gone in st.holds && gone.thread == t && t in st.pending
    ensures Inv(st.(pending := Forget(st.pending, t), holds := st.holds - multiset{gone}))
  {
    var st1 := st.(pending := Forget(st.pending, t), holds := st.holds - multiset{gone});
    assert forall k :: k in st1.holds ==> k in st.holds && st1.holds[k] <= st.holds[k];
    assert OneToOne(st1);
    hide OneToOne;
    forall u | u in st1.pending && st1.pending[u].Unlocking?
      ensures Holds(st1, u, st1.pending[u].guest)
    {
      assert Holds(st, u, st.pending[u].guest);
      var k :| k in st.holds && k.thread == u && k.guest == st.pending[u].guest;
      assert k in st1.holds;
    }
    assert HostExclusive(st1);
    hide HostExclusive;
  }

  lemma DestroyKeepsInv(st: State, t: Thread, g: Guest)
    requires Inv(st) && !InUse(st, g)
    ensures Inv(Next(st, Destroy(t, g)))
  {
    var st1 := Next(st, Destroy(t, g));
    if g in st.table {
      assert forall k | k in st1.table :: k in st.table && k != g && st1.table[k] == st.table[k];
      forall h: HostLock | h in st1.live
        ensures h in st1.table.Values
      {
        var k :| k in st.table && st.table[k] == h;
        assert k in st1.table;
      }
      assert forall u, k :: Holds(st1, u, k) <==> Holds(st, u, k);
    }
  }

  lemma StepKeepsInv(st: State, act: Action)
    requires Inv(st) && Enabled(st, act) && Disciplined(st, act)
    ensures Inv(Next(st, act))
  {
    match act
    case Init(t, g, room) => FindKeepsInv(st, g, room);
    case StartLock(t, g, w, room) =>
      FindKeepsInv(st, g, room);
      var st1, st2 := Find(st, g, room).0, Next(st, act);
      assert forall u, k :: Holds(st2, u, k) <==> Holds(st1, u, k);
    case Acquire(t) => AcquireKeepsInv(st, t);
    case StartUnlock(t, g) =>
      var st1 := Next(st, act);
      assert forall u, k :: Holds(st1, u, k) <==> Holds(st, u, k);
    case Release(t) => ReleaseKeepsInv(st, t);
    case Destroy(t, g) => DestroyKeepsInv(st, t, g);
  }

  // Runs ------------------------------------------------------------------------------------------

  function Run(st: State, acts: seq<Action>): State
    decreases |acts|
  {
    if acts == [] then st else Run(Next(st, acts[0]), acts[1..])
  }

  predicate Legal(st: State, acts: seq<Action>)
    decreases |acts|
  {
    acts == [] || (Enabled(st, acts[0]) && Disciplined(st, acts[0]) && Legal(Next(st, acts[0]), acts[1..]))
  }

  lemma {:induction false} RunKeepsInv(st: State, acts: seq<Action>)
    requires Inv(st) && Legal(st, acts)
    ensures Inv(Run(st, acts))
    decreases |acts|
  {
    hide Inv, Enabled, Disciplined, Next;
    if acts != [] {
      StepKeepsInv(st, acts[0]);
      RunKeepsInv(Next(st, acts[0]), acts[1..]);
    }
  }

  /** Main result: in every interleaving of a guest that destroys no lock in
      use, a guest lock held for writing is held by one thread once, the guests'
      locks are one to one with the live host locks, and no freed lock is used. */
  lemma ExclusionInEveryRun(acts: seq<Action>)
    requires Legal(START, acts)
    ensures var st := Run(START, acts);
            GuestExclusive(st) && OneToOne(st) && !st.fault
  {
    assert Inv(START);
    RunKeepsInv(START, acts);
  }

  /** Threads that race to use a lock first, or at any time, wait for the same host lock. */
  lemma RacersShareOneLock(acts: seq<Action>, t: Thread, u: Thread)
    requires Legal(START, acts)
    requires var st := Run(START, acts);
             t in st.pending && u in st.pending && st.pending[t].guest == st.pending[u].guest
    ensures var st := Run(START, acts);
            && st.pending[t].host == st.pending[u].host
            && st.pending[t].host in st.live
  {
    assert Inv(START);
    RunKeepsInv(START, acts);
    var st := Run(START, acts);
    assert Names(st, st.pending[t].guest, st.pending[t].host);
    assert st.pending[t].host in st.table.Values;
  }

  /** Whichever of two first uses comes first, one host lock is made. */
  lemma FirstUseMakesOneLock(st: State, t: Thread, u: Thread, g: Guest, w: bool, x: bool, room: HostLock,
                             other: HostLock)
    requires Inv(st) && g !in st.table && t != u && room != other
    requires Enabled(st, StartLock(t, g, w, room)) &&
               Enabled(Next(st, StartLock(t, g, w, room)), StartLock(u, g, x, other))
    ensures var st2 := Next(Next(st, StartLock(t, g, w, room)), StartLock(u, g, x, other));
            && st2.live == st.live + {room}
            && st2.pending[t] == Locking(g, room, w) && st2.pending[u] == Locking(g, room, x)
            && st2 == Next(Next(st, StartLock(u, g, x, room)), StartLock(t, g, w, other))
  {
    var one := Next(Next(st, StartLock(t, g, w, room)), StartLock(u, g, x, other));
    var two := Next(Next(st, StartLock(u, g, x, room)), StartLock(t, g, w, other));
    assert one.pending == two.pending;
  }

  /** The host lock decides as a lock of the guest's own would. */
  lemma GrantedIffGuestFree(acts: seq<Action>, t: Thread)
    requires Legal(START, acts)
    requires t in Run(START, acts).pending && Run(START, acts).pending[t].Locking?
    ensures var st := Run(START, acts);
            Enabled(st, Acquire(t)) <==>
            forall h | h in st.holds && h.guest == st.pending[t].guest :: !h.write && !st.pending[t].write
  {
    assert Inv(START);
    RunKeepsInv(START, acts);
    var st := Run(START, acts);
    var p := st.pending[t];
    assert Names(st, p.guest, p.host);
    assert p.host in st.table.Values;
    assert forall h | h in st.holds :: Names(st, h.guest, h.host);
    assert forall h | h in st.holds :: h.host == p.host <==> h.guest == p.guest;
  }

  // Destroying a lock in use ------------------------------------------------------------------------

  /** The guest's duty is exact: destroying a known lock keeps the invariant
      if and only if nobody holds it or is in a hook on it. */
  lemma DestroySafeIffUnused(st: State, t: Thread, g: Guest)
    requires Inv(st) && g in st.table
    ensures Inv(Next(st, Destroy(t, g))) <==> !InUse(st, g)
  {
    var st1 := Next(st, Destroy(t, g));
    if InUse(st, g) {
      if h :| h in st.holds && h.guest == g {
        assert h in st1.holds && !Names(st1, h.guest, h.host);
      } else {
        var u :| u in st.pending && st.pending[u].guest == g;
        assert u in st1.pending && !Names(st1, g, st1.pending[u].host);
      }
    } else {
      DestroyKeepsInv(st, t, g);
    }
  }

  /** Destroying a lock held for writing lets a second writer in. */
  lemma DestroyedWhileHeld(st: State, h: Hold, t: Thread, u: Thread, room: HostLock)
    requires Inv(st) && h in st.holds && h.write && t != h.thread && u != h.thread
    requires t !in st.pending && u !in st.pending && room !in st.live
    ensures var st1 := Next(st, Destroy(t, h.guest));
            var st2 := Next(st1, StartLock(u, h.guest, true, room));
            var st3 := Next(st2, Acquire(u));
            && Enabled(st, Destroy(t, h.guest)) && Enabled(st1, StartLock(u, h.guest, true, room)) &&
                 Enabled(st2, Acquire(u))
            && h in st3.holds && Hold(u, h.guest, room, true) in st3.holds && !GuestExclusive(st3)
  {
    var st1 := Next(st, Destroy(t, h.guest));
    var st2 := Next(st1, StartLock(u, h.guest, true, room));
    var st3 := Next(st2, Acquire(u));
    assert forall k | k in st.holds :: Names(st, k.guest, k.host) && k.host in st.table.Values;
    assert st2.pending[u] == Locking(h.guest, room, true);
    assert Hold(u, h.guest, room, true) in st3.holds && h in st3.holds;
  }
}
