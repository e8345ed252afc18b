/** The reader/writer locks as their callers see them: who holds what, and who is
    let in, follows from the history of hook calls alone. */
module RwHistory {
  import opened Words
  import opened RwLock

  // History: a sequence of actions, the newest last ----------------------------------------------

  function Newest(acts: seq<Action>): Action
    requires acts != []
  {
    acts[|acts| - 1]
  }

  function Earlier(acts: seq<Action>): seq<Action>
    requires acts != []
  {
    acts[..|acts| - 1]
  }

  /** The last thing a thread did. */
  function LastAct(acts: seq<Action>, t: Thread): Option<Action> {
    if acts == [] then None
    else if Newest(acts).thread == t then Some(Newest(acts))
    else LastAct(Earlier(acts), t)
  }

  /** What a thread is in the middle of: asking for a lock, or giving one back. */
  datatype Hook = Idle | Asking(guest: Guest, write: bool) | Returning(guest: Guest)

  /** A thread is in the middle of the hook its last action began. */
  function HookOf(last: Option<Action>): Hook {
    match last
    case Some(StartLock(_, g, w, _)) => Asking(g, w)
    case Some(StartUnlock(_, g)) => Returning(g)
    case _ => Idle
  }

  /** The thread has asked for a lock and has not been let in yet. */
  predicate Asks(acts: seq<Action>, t: Thread, g: Guest, w: bool) {
    HookOf(LastAct(acts, t)) == Asking(g, w)
  }

  /** The thread is giving a lock back. */
  predicate GivesBack(acts: seq<Action>, t: Thread, g: Guest) {
    HookOf(LastAct(acts, t)) == Returning(g)
  }

  predicate Enters(acts: seq<Action>, t: Thread, g: Guest, w: bool)
    requires acts != []
  {
    Newest(acts) == Acquire(t) && Asks(Earlier(acts), t, g, w)
  }

  predicate Leaves(acts: seq<Action>, t: Thread, g: Guest)
    requires acts != []
  {
    Newest(acts) == Release(t) && GivesBack(Earlier(acts), t, g)
  }

  /** How often the thread has been let in. */
  function Entered(acts: seq<Action>, t: Thread, g: Guest): nat {
    if acts == [] then 0
    else Entered(Earlier(acts), t, g) + if Enters(acts, t, g, true) || Enters(acts, t, g, false) then 1 else 0
  }

  /** How often it has given the lock back. */
  function Left(acts: seq<Action>, t: Thread, g: Guest): nat {
    if acts == [] then 0 else Left(Earlier(acts), t, g) + if Leaves(acts, t, g) then 1 else 0
  }

  /** Whether it was last let in as a writer. */
  function AsWriter(acts: seq<Action>, t: Thread, g: Guest): bool {
    if acts == [] then false
    else if Enters(acts, t, g, true) then true
    else if Enters(acts, t, g, false) then false
    else AsWriter(Earlier(acts), t, g)
  }

  /** The thread has been let in more often than it has given the lock back. */
  predicate Inside(acts: seq<Action>, t: Thread, g: Guest) {
    Entered(acts, t, g) > Left(acts, t, g)
  }

  // The state is the history ------------------------------------------------------------------------

  /** The hook a thread is in, as the state has it. */
  function HookIn(st: State, t: Thread): Hook {
    if t !in st.pending then Idle
    else
      match st.pending[t]
      case Locking(g, _, w) => Asking(g, w)
      case Unlocking(g, _) => Returning(g)
  }

  ghost predicate HooksMatch(acts: seq<Action>, st: State) {
    forall t :: HookIn(st, t) == HookOf(LastAct(acts, t))
  }

  /** How many holds of one kind the history asks for. */
  function Due(acts: seq<Action>, st: State, h: Hold): int {
    if Names(st, h.guest, h.host) && h.write == AsWriter(acts, h.thread, h.guest)
    then Entered(acts, h.thread, h.guest) - Left(acts, h.thread, h.guest)
    else 0
  }

  ghost predicate HoldsMatch(acts: seq<Action>, st: State) {
    && (forall h :: st.holds[h] == Due(acts, st, h))
    && (forall t, g | g !in st.table :: Entered(acts, t, g) == Left(acts, t, g))
  }

  ghost predicate Matches(acts: seq<Action>, st: State) {
    HooksMatch(acts, st) && HoldsMatch(acts, st)
  }

  lemma LastActSnoc(acts: seq<Action>, act: Action, t: Thread)
    ensures LastAct(acts + [act], t) == if act.thread == t then Some(act) else LastAct(acts, t)
    ensures Newest(acts + [act]) == act && Earlier(acts + [act]) == acts
  {
  }

  /** What one more action adds to the counts. */
  lemma CountsSnoc(acts: seq<Action>, act: Action, t: Thread, g: Guest)
    ensures var more := acts + [act];
            var enters := act == Acquire(t) && (Asks(acts, t, g, true) || Asks(acts, t, g, false));
            && Entered(more, t, g) == Entered(acts, t, g) + (if enters then 1 else 0)
            && Left(more, t, g) == Left(acts, t, g) + (if act == Release(t) && GivesBack(acts, t, g) then 1 else 0)
            && AsWriter(more, t, g) == if enters then Asks(acts, t, g, true) else AsWriter(acts, t, g)
  {
    LastActSnoc(acts, act, t);
    assert !(Asks(acts, t, g, true) && Asks(acts, t, g, false));
  }

  lemma ReturnedIsKnown(st: State, t: Thread, g: Guest)
    requires Inv(st) && Holds(st, t, g)
    ensures g in st.table
  {
    var h :| h in st.holds && h.thread == t && h.guest == g;
    assert Names(st, h.guest, h.host);
  }

  lemma ForgetOne(pending: map<Thread, Pending>, t: Thread)
    ensures forall u :: u in Forget(pending, t) <==> u in pending && u != t
    ensures forall u | u in pending && u != t :: Forget(pending, t)[u] == pending[u]
  {
  }

  lemma FirstStepHook(st: State, act: Action, t: Thread)
    requires act.Init? || act.StartLock? || act.Destroy? || (act.StartUnlock? && act.guest in st.table)
    requires Enabled(st, act)
    ensures HookIn(Next(st, act), t) == if act.thread == t then HookOf(Some(act)) else HookIn(st, t)
  {
    hide Grants;
  }

  lemma AcquireHook(st: State, u: Thread, t: Thread)
    requires Enabled(st, Acquire(u))
    ensures HookIn(Next(st, Acquire(u)), t) == if u == t then Idle else HookIn(st, t)
  {
    hide Forget, Grants;
    ForgetOne(st.pending, u);
    assert Next(st, Acquire(u)).pending == Forget(st.pending, u);
    hide Next;
  }

  lemma ReleaseHook(st: State, u: Thread, t: Thread)
    requires Enabled(st, Release(u))
    ensures HookIn(Next(st, Release(u)), t) == if u == t then Idle else HookIn(st, t)
  {
    hide Forget, Grants;
    ForgetOne(st.pending, u);
    assert Next(st, Release(u)).pending == Forget(st.pending, u);
    hide Next;
  }

  /** The hook under way after a step, whichever step it was. */
  lemma HookStep(st: State, act: Action, t: Thread)
    requires Inv(st) && Enabled(st, act) && Disciplined(st, act)
    ensures HookIn(Next(st, act), t) == if act.thread == t then HookOf(Some(act)) else HookIn(st, t)
  {
    hide Inv, Holds, Enabled, InUse, Next, HookIn;
    match act
    case Acquire(u) => AcquireHook(st, u, t);
    case Release(u) => ReleaseHook(st, u, t);
    case StartUnlock(u, g) =>
      ReturnedIsKnown(st, u, g);
      FirstStepHook(st, act, t);
    case _ => FirstStepHook(st, act, t);
  }

  lemma HooksStep(acts: seq<Action>, st: State, act: Action)
    requires HooksMatch(acts, st) && Inv(st) && Enabled(st, act) && Disciplined(st, act)
    ensures HooksMatch(acts + [act], Next(st, act))
  {
    hide Inv, Enabled, Disciplined, Next, HookIn, HookOf;
    forall t
      ensures HookIn(Next(st, act), t) == HookOf(LastAct(acts + [act], t))
    {
      LastActSnoc(acts, act, t);
      HookStep(st, act, t);
    }
  }

  // Holds -----------------------------------------------------------------------------------------------

  /** A table in which a guest lock nobody is inside of has come or gone asks for the same holds. */
  lemma SameDue(acts: seq<Action>, act: Action, st: State, st1: State)
    requires HoldsMatch(acts, st) && st1.holds == st.holds && !act.Acquire? && !act.Release?
    requires forall g, host | Names(st, g, host) != Names(st1, g, host) ::
               forall t :: Entered(acts, t, g) == Left(acts, t, g)
    requires forall g | g in st.table && g !in st1.table :: forall t :: Entered(acts, t, g) == Left(acts, t, g)
    ensures HoldsMatch(acts + [act], st1)
  {
    hide Entered, Left, AsWriter, Names;
    forall t, g
      ensures Entered(acts + [act], t, g) == Entered(acts, t, g) && Left(acts + [act], t, g) == Left(acts, t, g)
      ensures AsWriter(acts + [act], t, g) == AsWriter(acts, t, g)
    {
      CountsSnoc(acts, act, t, g);
    }
  }

  lemma NobodyInside(acts: seq<Action>, st: State, g: Guest)
    requires HoldsMatch(acts, st) && !InUse(st, g)
    ensures forall t :: Entered(acts, t, g) == Left(acts, t, g)
  {
    hide Entered, Left, AsWriter;
    forall t
      ensures Entered(acts, t, g) == Left(acts, t, g)
    {
      if g in st.table {
        var h := Hold(t, g, st.table[g], AsWriter(acts, t, g));
        assert st.holds[h] == Due(acts, st, h);
        assert h !in st.holds;
      }
    }
  }

  lemma DestroyMatches(acts: seq<Action>, st: State, t: Thread, g: Guest)
    requires HoldsMatch(acts, st) && !InUse(st, g)
    ensures HoldsMatch(acts + [Destroy(t, g)], Next(st, Destroy(t, g)))
  {
    NobodyInside(acts, st, g);
    hide InUse, HoldsMatch, Entered, Left;
    SameDue(acts, Destroy(t, g), st, Next(st, Destroy(t, g)));
  }

  lemma FindMatches(acts: seq<Action>, st: State, act: Action, g: Guest, room: HostLock)
    requires HoldsMatch(acts, st) && (act.Init? || act.StartLock?) && act.guest == g && act.room == room
    ensures HoldsMatch(acts + [act], Next(st, act))
  {
    assert g !in st.table ==> forall t :: Entered(acts, t, g) == Left(acts, t, g);
    hide HoldsMatch, Entered, Left;
    SameDue(acts, act, st, Next(st, act));
  }

  /** Where the history puts a thread's holds. */
  lemma HoldOf(acts: seq<Action>, st: State, t: Thread, g: Guest)
    requires HoldsMatch(acts, st) && g in st.table
    ensures var h := Hold(t, g, st.table[g], AsWriter(acts, t, g));
            st.holds[h] == Entered(acts, t, g) - Left(acts, t, g)
    ensures st.holds[Hold(t, g, st.table[g], !AsWriter(acts, t, g))] == 0
  {
    hide Entered, Left, AsWriter;
    var h := Hold(t, g, st.table[g], AsWriter(acts, t, g));
    assert st.holds[h] == Due(acts, st, h);
    var k := Hold(t, g, st.table[g], !AsWriter(acts, t, g));
    assert st.holds[k] == Due(acts, st, k);
  }

  /** One more or one fewer hold of one kind. */
  ghost predicate HoldsChange(st: State, st1: State, h: Hold, change: int) {
    st1.table == st.table && forall k :: st1.holds[k] == st.holds[k] + if k == h then change else 0
  }

  /** The counts after one more action, which changes them only for one thread and lock. */
  predicate CountsAre(acts: seq<Action>, act: Action, t: Thread, g: Guest, h: Hold, change: int) {
    var more, here := acts + [act], t == h.thread && g == h.guest;
    && Entered(more, t, g) - Left(more, t, g) == Entered(acts, t, g) - Left(acts, t, g) + (if here then change else 0)
    && AsWriter(more, t, g) == if here && change == 1 then h.write else AsWriter(acts, t, g)
  }

  /** One hold more or less, and the history that says so. */
  lemma OneHold(acts: seq<Action>, act: Action, st: State, st1: State, h: Hold, change: int)
    requires HoldsMatch(acts, st) && HoldsChange(st, st1, h, change) && Names(st, h.guest, h.host)
    requires change == 1 || (change == -1 && h.write == AsWriter(acts, h.thread, h.guest))
    requires forall t, g :: CountsAre(acts, act, t, g, h, change)
    requires AsWriter(acts, h.thread, h.guest) == h.write ||
               Entered(acts, h.thread, h.guest) == Left(acts, h.thread, h.guest)
    ensures HoldsMatch(acts + [act], st1)
  {
    hide Entered, Left, AsWriter;
    var more := acts + [act];
    forall k: Hold
      ensures st1.holds[k] == Due(more, st1, k)
    {
      assert CountsAre(acts, act, k.thread, k.guest, h, change);
      assert st.holds[k] == Due(acts, st, k);
    }
    forall t, g | g !in st1.table
      ensures Entered(more, t, g) == Left(more, t, g)
    {
      assert CountsAre(acts, act, t, g, h, change);
      assert Entered(acts, t, g) == Left(acts, t, g);
    }
  }

  /** The hold that letting a thread in adds. */
  lemma AcquireAdds(acts: seq<Action>, st: State, t: Thread) returns (h: Hold)
    requires HoldsMatch(acts, st) && Inv(st) && Enabled(st, Acquire(t))
    ensures HoldsChange(st, Next(st, Acquire(t)), h, 1)
    ensures HookIn(st, t) == Asking(h.guest, h.write) && h.thread == t && Names(st, h.guest, h.host)
    ensures AsWriter(acts, t, h.guest) == h.write || Entered(acts, t, h.guest) == Left(acts, t, h.guest)
  {
    var p := st.pending[t];
    h := Hold(t, p.guest, p.host, p.write);
    assert Names(st, p.guest, p.host) && p.host in st.table.Values;
    HoldOf(acts, st, t, p.guest);
    hide HoldsMatch, Entered, Left, AsWriter, Forget, HostExclusive, OneToOne, Current;
    var held := h.(write := AsWriter(acts, t, p.guest));
    assert held in st.holds ==> !held.write && !h.write;
    assert Next(st, Acquire(t)).holds == st.holds + multiset{h};
  }

  lemma AcquireMatches(acts: seq<Action>, st: State, t: Thread)
    requires Matches(acts, st) && Inv(st) && Enabled(st, Acquire(t))
    ensures HoldsMatch(acts + [Acquire(t)], Next(st, Acquire(t)))
  {
    var h := AcquireAdds(acts, st, t);
    assert HookIn(st, t) == HookOf(LastAct(acts, t));
    hide Inv, Next, Enabled, HoldsMatch, HooksMatch, Entered, Left, AsWriter, LastAct, HoldsChange, Names;
    forall u, g
      ensures CountsAre(acts, Acquire(t), u, g, h, 1)
    {
      CountsSnoc(acts, Acquire(t), u, g);
    }
    OneHold(acts, Acquire(t), st, Next(st, Acquire(t)), h, 1);
  }

  /** The hold that giving back removes. */
  lemma ReleaseDrops(acts: seq<Action>, st: State, t: Thread) returns (h: Hold)
    requires HoldsMatch(acts, st) && Inv(st) && Enabled(st, Release(t))
    ensures HoldsChange(st, Next(st, Release(t)), h, -1)
    ensures HookIn(st, t) == Returning(h.guest) && h.thread == t && Names(st, h.guest, h.host)
    ensures AsWriter(acts, t, h.guest) == h.write
  {
    var p := st.pending[t];
    assert Names(st, p.guest, p.host) && p.host in st.table.Values;
    HoldOf(acts, st, t, p.guest);
    h := Hold(t, p.guest, p.host, AsWriter(acts, t, p.guest));
    HeldHere(st, t, p.guest, p.host);
    hide HoldsMatch, Entered, Left, AsWriter, Forget, HostExclusive, OneToOne, Current;
    assert st.holds[h.(write := !h.write)] == 0 && h in st.holds;
    hide Inv, Holds, AsWriter;
    OnlyHold(st, t, h);
  }

  lemma OnlyHold(st: State, t: Thread, h: Hold)
    requires t in st.pending && st.pending[t] == Unlocking(h.guest, h.host) && h.thread == t
    requires h.host in st.live && h in st.holds && h.(write := !h.write) !in st.holds
    ensures HoldsChange(st, Next(st, Release(t)), h, -1)
  {
    hide Forget;
    assert Next(st, Release(t)).holds == st.holds - multiset{h};
  }

  /** What a thread holds of a guest lock, it holds of that lock's host lock. */
  lemma HeldHere(st: State, t: Thread, g: Guest, host: HostLock)
    requires Current(st) && Names(st, g, host) && Holds(st, t, g)
    ensures Hold(t, g, host, true) in st.holds || Hold(t, g, host, false) in st.holds
  {
    var k :| k in st.holds && k.thread == t && k.guest == g;
    assert Names(st, k.guest, k.host);
    assert k == Hold(t, g, host, k.write);
  }

  lemma ReleaseCounts(acts: seq<Action>, u: Thread, g: Guest, h: Hold)
    requires HookOf(LastAct(acts, h.thread)) == Returning(h.guest)
    ensures CountsAre(acts, Release(h.thread), u, g, h, -1)
  {
    CountsSnoc(acts, Release(h.thread), u, g);
    hide Entered, Left, AsWriter, LastAct, HookOf;
  }

  lemma ReleaseMatches(acts: seq<Action>, st: State, t: Thread)
    requires Matches(acts, st) && Inv(st) && Enabled(st, Release(t))
    ensures HoldsMatch(acts + [Release(t)], Next(st, Release(t)))
  {
    var h := ReleaseDrops(acts, st, t);
    assert HookIn(st, t) == HookOf(LastAct(acts, t));
    hide Inv, Next, Enabled, HoldsMatch, HooksMatch, Entered, Left, AsWriter, LastAct, HoldsChange, Names, HookOf,
      HookIn, CountsAre;
    forall u, g
      ensures CountsAre(acts, Release(t), u, g, h, -1)
    {
      ReleaseCounts(acts, u, g, h);
    }
    OneHold(acts, Release(t), st, Next(st, Release(t)), h, -1);
  }

  lemma StepMatches(acts: seq<Action>, st: State, act: Action)
    requires Matches(acts, st) && Inv(st) && Enabled(st, act) && Disciplined(st, act)
    ensures Matches(acts + [act], Next(st, act))
  {
    HooksStep(acts, st, act);
    hide Inv, Next, Enabled, HoldsMatch, HooksMatch, InUse, Holds;
    match act
    case Init(_, g, room) => FindMatches(acts, st, act, g, room);
    case StartLock(_, g, _, room) => FindMatches(acts, st, act, g, room);
    case Acquire(t) => AcquireMatches(acts, st, t);
    case StartUnlock(t, g) =>
      ReturnedIsKnown(st, t, g);
      StartUnlockMatches(acts, st, t, g);
    case Release(t) => ReleaseMatches(acts, st, t);
    case Destroy(t, g) => DestroyMatches(acts, st, t, g);
  }

  lemma StartUnlockMatches(acts: seq<Action>, st: State, t: Thread, g: Guest)
    requires HoldsMatch(acts, st)
    ensures HoldsMatch(acts + [StartUnlock(t, g)], Next(st, StartUnlock(t, g)))
  {
    hide HoldsMatch, Entered, Left;
    SameDue(acts, StartUnlock(t, g), st, Next(st, StartUnlock(t, g)));
  }

  // Runs ----------------------------------------------------------------------------------------------

  lemma {:induction false} RunSnoc(st: State, acts: seq<Action>, act: Action)
    ensures Run(st, acts + [act]) == Next(Run(st, acts), act)
    ensures Legal(st, acts + [act]) <==>
              Legal(st, acts) && Enabled(Run(st, acts), act) && Disciplined(Run(st, acts), act)
    decreases |acts|
  {
    hide Enabled, Disciplined, Next;
    if acts == [] {
      assert (acts + [act])[1..] == [];
    } else {
      assert (acts + [act])[0] == acts[0] && (acts + [act])[1..] == acts[1..] + [act];
      RunSnoc(Next(st, acts[0]), acts[1..], act);
    }
  }

  lemma NothingYet()
    ensures Matches([], START) && Inv(START)
  {
  }

  lemma {:induction false} RunMatches(acts: seq<Action>)
    requires Legal(START, acts)
    ensures Matches(acts, Run(START, acts)) && Inv(Run(START, acts))
    decreases |acts|
  {
    hide Matches, Inv, Enabled, Disciplined, Next;
    NothingYet();
    if acts != [] {
      var before, act := Earlier(acts), Newest(acts);
      assert acts == before + [act];
      RunSnoc(START, before, act);
      RunMatches(before);
      StepMatches(before, Run(START, before), act);
      StepKeepsInv(Run(START, before), act);
    }
  }

  /** Main result: in every interleaving a thread holds a guest lock exactly as
      often as it has been let in and has not given it back, in the mode in which
      it was last let in, and on the one host lock of that guest lock. */
  lemma HoldsAreHistory(acts: seq<Action>, h: Hold)
    requires Legal(START, acts)
    ensures var st := Run(START, acts);
            && Entered(acts, h.thread, h.guest) >= Left(acts, h.thread, h.guest)
            && (Inside(acts, h.thread, h.guest) ==> h.guest in st.table)
            && st.holds[h] ==
               if Names(st, h.guest, h.host) && h.write == AsWriter(acts, h.thread, h.guest)
               then Entered(acts, h.thread, h.guest) - Left(acts, h.thread, h.guest)
               else 0
  {
    RunMatches(acts);
    hide Entered, Left, AsWriter;
    var st := Run(START, acts);
    assert st.holds[h] == Due(acts, st, h);
    if h.guest in st.table {
      HoldOf(acts, st, h.thread, h.guest);
    }
  }

  /** Nobody is inside, or only readers are and the newcomer is one too. */
  ghost predicate Admits(acts: seq<Action>, g: Guest, w: bool) {
    forall u :: Inside(acts, u, g) ==> !w && !AsWriter(acts, u, g)
  }

  /** Main result: a waiting thread can be let in exactly when the history says
      so: a writer when everybody has given the lock back, a reader when every
      writer has. */
  lemma LetInIff(acts: seq<Action>, t: Thread, g: Guest, w: bool)
    requires Legal(START, acts) && Asks(acts, t, g, w)
    ensures Legal(START, acts + [Acquire(t)]) <==> Admits(acts, g, w)
  {
    RunMatches(acts);
    RunSnoc(START, acts, Acquire(t));
    var st := Run(START, acts);
    assert HookIn(st, t) == HookOf(LastAct(acts, t));
    GrantedIffGuestFree(acts, t);
    assert Names(st, g, st.pending[t].host);
    hide Entered, Left, AsWriter, Enabled, Disciplined, LastAct;
    forall u
      ensures Inside(acts, u, g) <==> Hold(u, g, st.table[g], AsWriter(acts, u, g)) in st.holds
    {
      HoldOf(acts, st, u, g);
    }
    forall h | h in st.holds && h.guest == g
      ensures Inside(acts, h.thread, g) && h.write == AsWriter(acts, h.thread, g)
    {
      assert st.holds[h] == Due(acts, st, h);
    }
  }

  /** So a writer is alone, and inside once. */
  lemma WriterAlone(acts: seq<Action>, t: Thread, g: Guest)
    requires Legal(START, acts) && Inside(acts, t, g) && AsWriter(acts, t, g)
    ensures Entered(acts, t, g) == Left(acts, t, g) + 1
    ensures forall u | u != t :: !Inside(acts, u, g)
  {
    RunMatches(acts);
    ExclusionInEveryRun(acts);
    hide Entered, Left, AsWriter;
    var st := Run(START, acts);
    HoldOf(acts, st, t, g);
    var h := Hold(t, g, st.table[g], true);
    assert h in st.holds;
    forall u | u != t
      ensures !Inside(acts, u, g)
    {
      HoldOf(acts, st, u, g);
    }
  }

  /** A thread between hooks may begin to give a lock back exactly when it is inside. */
  lemma MayGiveBackIff(acts: seq<Action>, t: Thread, g: Guest)
    requires Legal(START, acts) && HookOf(LastAct(acts, t)) == Idle
    ensures Legal(START, acts + [StartUnlock(t, g)]) <==> Inside(acts, t, g)
  {
    RunMatches(acts);
    RunSnoc(START, acts, StartUnlock(t, g));
    hide Entered, Left, AsWriter, LastAct;
    var st := Run(START, acts);
    assert HookIn(st, t) == HookOf(LastAct(acts, t));
    if Holds(st, t, g) {
      var h :| h in st.holds && h.thread == t && h.guest == g;
      assert st.holds[h] == Due(acts, st, h);
    }
    if Inside(acts, t, g) {
      HoldOf(acts, st, t, g);
    }
  }

  /** Giving back never waits. */
  lemma GivingBackEnds(acts: seq<Action>, t: Thread, g: Guest)
    requires Legal(START, acts) && GivesBack(acts, t, g)
    ensures Legal(START, acts + [Release(t)])
    ensures Left(acts + [Release(t)], t, g) == Left(acts, t, g) + 1
  {
    RunMatches(acts);
    RunSnoc(START, acts, Release(t));
    CountsSnoc(acts, Release(t), t, g);
    hide Entered, Left, AsWriter, LastAct, Inv;
    assert HookIn(Run(START, acts), t) == HookOf(LastAct(acts, t));
  }

  // Which locks there are ----------------------------------------------------------------------------------

  /** The last call that makes or destroys a guest lock's host lock: locking makes it too. */
  function LastOn(acts: seq<Action>, g: Guest): Option<Action> {
    if acts == [] then None
    else
      match Newest(acts)
      case Init(_, h, _) => if h == g then Some(Newest(acts)) else LastOn(Earlier(acts), g)
      case StartLock(_, h, _, _) => if h == g then Some(Newest(acts)) else LastOn(Earlier(acts), g)
      case Destroy(_, h) => if h == g then Some(Newest(acts)) else LastOn(Earlier(acts), g)
      case _ => LastOn(Earlier(acts), g)
  }

  /** The call, if any, has made the lock. */
  predicate Makes(last: Option<Action>) {
    last.Some? && !last.value.Destroy?
  }

  lemma TableStep(st: State, act: Action, g: Guest)
    requires Enabled(st, act)
    ensures g in Next(st, act).table <==>
            match act
            case Init(_, h, _) => h == g || g in st.table
            case StartLock(_, h, _, _) => h == g || g in st.table
            case Destroy(_, h) => h != g && g in st.table
            case _ => g in st.table
  {
    hide Grants, Forget;
  }

  /** Main result: a guest lock has a host lock exactly when the last call to
      initialise, lock or destroy it was not to destroy it. */
  lemma {:induction false} KnownIff(acts: seq<Action>, g: Guest)
    requires Legal(START, acts)
    ensures g in Run(START, acts).table <==> Makes(LastOn(acts, g))
    decreases |acts|
  {
    hide Enabled, Disciplined, Next;
    if acts != [] {
      var before, act := Earlier(acts), Newest(acts);
      assert acts == before + [act];
      RunSnoc(START, before, act);
      KnownIff(before, g);
      TableStep(Run(START, before), act, g);
    }
  }
}
