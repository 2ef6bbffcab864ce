/** First use of a device file by several threads at once: ac_get_fd_state() in
    src/anticheat_module.c, every interleaving of its loads, stores and lock operations.

    Stores become visible to other threads later than they are issued and in any order, except that
    a release store (and the release in mutex_unlock) waits for the stores issued before it. */
module FdState {
  import opened Common

  type Tid = nat
  type Id = nat

  datatype Phase =
    | Start                          // before the acquire load of the fast path
    | WantLock                       // that load saw NULL
    | Locked                         // owns the allocation lock, before the second load
    | MustAlloc                      // that load saw NULL
    | Allocated(id: Id)              // kzalloc() returned id
    | Initialised(id: Id)            // mutex_init() issued
    | Unlocking(result: Option<Id>)  // before mutex_unlock()
    | Done(result: Option<Id>)       // returned

  /** A thread with the stores it has issued and nobody else can see yet. */
  datatype Thread = Thread(phase: Phase, pendingInit: Option<Id>, pendingPublish: Option<Id>)

  datatype State = State(
    threads: map<Tid, Thread>,
    lockOwner: Option<Tid>,
    privateData: Option<Id>,   // what other threads load
    ready: set<Id>,            // states whose initialisation is visible
    live: set<Id>)             // states allocated for this file and not freed

  datatype Action =
    | FastLoad | Lock | SecondLoad | Alloc(id: Id) | AllocFails | InitLock | ReleaseStore | Unlock
    | InitVisible | StoreVisible   // the memory system, at any time

  datatype Event = Event(tid: Tid, action: Action)

  predicate Enabled(s: State, e: Event) {
    e.tid in s.threads &&
    var t := s.threads[e.tid];
    match e.action
    case FastLoad => t.phase.Start?
    case Lock => t.phase.WantLock? && s.lockOwner.None?
    case SecondLoad => t.phase.Locked?
    case Alloc(id) => t.phase.MustAlloc? && id !in s.live
    case AllocFails => t.phase.MustAlloc?
    case InitLock => t.phase.Allocated?
    case ReleaseStore => t.phase.Initialised?
    case Unlock => t.phase.Unlocking? && t.pendingInit.None? && t.pendingPublish.None?
    case InitVisible => t.pendingInit.Some?
    case StoreVisible => t.pendingPublish.Some? && t.pendingInit.None?
  }

  function Set(s: State, tid: Tid, t: Thread): State {
    s.(threads := s.threads[tid := t])
  }

  function Next(s: State, e: Event): State
    requires Enabled(s, e)
  {
    var t := s.threads[e.tid];
    match e.action
    case FastLoad =>
      Set(s, e.tid, t.(phase := if s.privateData.Some? then Done(s.privateData) else WantLock))
    case Lock =>
      Set(s, e.tid, t.(phase := Locked)).(lockOwner := Some(e.tid))
    case SecondLoad =>
      Set(s, e.tid, t.(phase := if s.privateData.Some? then Unlocking(s.privateData) else MustAlloc))
    case Alloc(id) =>
      Set(s, e.tid, t.(phase := Allocated(id))).(live := s.live + {id}, ready := s.ready - {id})
    case AllocFails =>
      Set(s, e.tid, t.(phase := Unlocking(None)))
    case InitLock =>
      Set(s, e.tid, t.(phase := Initialised(t.phase.id), pendingInit := Some(t.phase.id)))
    case ReleaseStore =>
      Set(s, e.tid, t.(phase := Unlocking(Some(t.phase.id)), pendingPublish := Some(t.phase.id)))
    case Unlock =>
      Set(s, e.tid, t.(phase := Done(t.phase.result))).(lockOwner := None)
    case InitVisible =>
      Set(s, e.tid, t.(pendingInit := None)).(ready := s.ready + {t.pendingInit.value})
    case StoreVisible =>
      Set(s, e.tid, t.(pendingPublish := None)).(privateData := t.pendingPublish)
  }

  /** Any number of threads about to make their first call on a freshly opened file. */
  ghost predicate Init(s: State) {
    && (forall t :: t in s.threads ==> s.threads[t] == Thread(Start, None, None))
    && s.lockOwner.None? && s.privateData.None? && s.live == {}
  }

  ghost predicate Runs(s: State, run: seq<Event>)
    decreases run
  {
    run == [] || (Enabled(s, run[0]) && Runs(Next(s, run[0]), run[1..]))
  }

  ghost function Final(s: State, run: seq<Event>): State
    requires Runs(s, run)
    decreases run
  {
    if run == [] then s else Final(Next(s, run[0]), run[1..])
  }

  // ---- the invariant ----

  predicate HoldsLock(p: Phase) {
    p.Locked? || p.MustAlloc? || p.Allocated? || p.Initialised? || p.Unlocking?
  }

  /** The state a thread has allocated and not yet published, visibly to others. */
  function Unpublished(t: Thread): Option<Id> {
    match t.phase
    case Allocated(id) => Some(id)
    case Initialised(id) => Some(id)
    case _ => t.pendingPublish
  }

  ghost predicate ThreadOk(s: State, t: Thread) {
    && (t.pendingInit.Some? ==>
          t.phase == Initialised(t.pendingInit.value) || (t.phase.Unlocking? && t.pendingPublish == t.pendingInit))
    && (t.pendingPublish.Some? ==> t.phase == Unlocking(t.pendingPublish))
    && (t.phase.Initialised? ==> t.pendingInit == Some(t.phase.id) || t.phase.id in s.ready)
    && (t.pendingPublish.Some? ==> t.pendingInit.Some? || t.pendingPublish.value in s.ready)
    && (t.phase.MustAlloc? ==> s.privateData.None?)
    && (Unpublished(t).Some? ==> s.privateData.None? && Unpublished(t).value in s.live)
    && (t.phase.Unlocking? && t.phase.result.Some? && t.pendingPublish.None? ==> t.phase.result == s.privateData)
    && (t.phase.Done? && t.phase.result.Some? ==> t.phase.result == s.privateData)
  }

  ghost predicate LockOk(s: State) {
    && (forall t :: t in s.threads ==> (HoldsLock(s.threads[t].phase) <==> s.lockOwner == Some(t)))
    && (s.lockOwner.Some? ==> s.lockOwner.value in s.threads)
  }

  /** Nothing allocated is lost: it is published, or the lock owner is about to publish it. */
  ghost predicate LiveOk(s: State)
    requires LockOk(s)
  {
    && (s.privateData.Some? ==> s.privateData.value in s.ready && s.privateData.value in s.live)
    && (forall id :: id in s.live ==>
          || s.privateData == Some(id)
          || (s.lockOwner.Some? && Unpublished(s.threads[s.lockOwner.value]) == Some(id)))
  }

  ghost predicate Inv(s: State) {
    && LockOk(s) && LiveOk(s)
    && (forall t :: t in s.threads ==> ThreadOk(s, s.threads[t]))
  }

  lemma StepLock(s: State, e: Event)
    requires Inv(s) && Enabled(s, e)
    ensures LockOk(Next(s, e))
  {
    hide ThreadOk, LiveOk, Unpublished;
  }

  lemma StepLive(s: State, e: Event)
    requires Inv(s) && Enabled(s, e)
    ensures LockOk(Next(s, e)) && LiveOk(Next(s, e))
  {
    StepLock(s, e);
    assert ThreadOk(s, s.threads[e.tid]);
  }

  lemma StepThread(s: State, e: Event, t: Tid)
    requires Inv(s) && Enabled(s, e) && t in s.threads
    ensures ThreadOk(Next(s, e), Next(s, e).threads[t])
  {
    assert ThreadOk(s, s.threads[t]) && ThreadOk(s, s.threads[e.tid]);
    assert t != e.tid ==> !(HoldsLock(s.threads[t].phase) && HoldsLock(s.threads[e.tid].phase));
  }

  lemma StepInv(s: State, e: Event)
    requires Inv(s) && Enabled(s, e)
    ensures Inv(Next(s, e))
  {
    hide ThreadOk, LiveOk;
    StepLive(s, e);
    forall t | t in s.threads ensures ThreadOk(Next(s, e), Next(s, e).threads[t]) {
      StepThread(s, e, t);
    }
  }

  /** A published pointer is never replaced: the store that publishes is not even issued again. */
  lemma StepKeepsPublished(s: State, e: Event)
    requires Inv(s) && Enabled(s, e) && s.privateData.Some?
    ensures Next(s, e).privateData == s.privateData && !e.action.StoreVisible?
  {
    assert ThreadOk(s, s.threads[e.tid]);
  }

  lemma InitInv(s: State)
    requires Init(s)
    ensures Inv(s)
  {
  }

  lemma {:induction false} RunInv(s: State, run: seq<Event>)
    requires Inv(s) && Runs(s, run)
    ensures Inv(Final(s, run))
    decreases run
  {
    if run != [] {
      StepInv(s, run[0]);
      RunInv(Next(s, run[0]), run[1..]);
    }
  }

  // ---- what every interleaving guarantees ----

  ghost function Publications(run: seq<Event>): nat {
    if run == [] then 0 else (if run[0].action.StoreVisible? then 1 else 0) + Publications(run[1..])
  }

  lemma {:induction false} PublicationsFrom(s: State, run: seq<Event>)
    requires Inv(s) && Runs(s, run)
    ensures Publications(run) <= if s.privateData.Some? then 0 else 1
    ensures s.privateData.Some? ==> Final(s, run).privateData == s.privateData
    decreases run
  {
    if run != [] {
      StepInv(s, run[0]);
      if s.privateData.Some? {
        StepKeepsPublished(s, run[0]);
      }
      PublicationsFrom(Next(s, run[0]), run[1..]);
    }
  }

  /** At most one state is ever published, and it stays published. */
  lemma AtMostOnePublication(s: State, run: seq<Event>, later: seq<Event>)
    requires Init(s) && Runs(s, run) && Runs(Final(s, run), later)
    ensures Publications(run) <= 1
    ensures Final(s, run).privateData.Some? ==>
              Publications(later) == 0 && Final(Final(s, run), later).privateData == Final(s, run).privateData
  {
    InitInv(s);
    RunInv(s, run);
    PublicationsFrom(s, run);
    PublicationsFrom(Final(s, run), later);
  }

  /** Every caller that got a state got the published one, with its lock visibly initialised. */
  lemma CallersAgree(s: State, run: seq<Event>, t: Tid)
    requires Init(s) && Runs(s, run)
    requires t in Final(s, run).threads && Final(s, run).threads[t].phase.Done?
    ensures var f := Final(s, run);
            f.threads[t].phase.result.Some? ==>
              && f.privateData == f.threads[t].phase.result
              && f.privateData.value in f.ready && f.privateData.value in f.live
  {
    InitInv(s);
    RunInv(s, run);
    assert ThreadOk(Final(s, run), Final(s, run).threads[t]);
  }

  // ---- why a call fails and what it returns, by the events of the run ----

  lemma {:induction false} Split(s: State, run: seq<Event>, k: nat)
    requires Runs(s, run) && k <= |run|
    ensures Runs(s, run[..k]) && Runs(Final(s, run[..k]), run[k..])
    ensures Final(Final(s, run[..k]), run[k..]) == Final(s, run)
    decreases k
  {
    if k == 0 {
      assert run[..0] == [] && run[0..] == run;
    } else {
      Split(Next(s, run[0]), run[1..], k - 1);
      assert run[..k][1..] == run[1..][..k - 1] && run[1..][k - 1..] == run[k..];
    }
  }

  /** On its way to return NULL. */
  predicate Failing(t: Thread) {
    (t.phase.Unlocking? || t.phase.Done?) && t.phase.result.None?
  }

  lemma StepFails(s: State, e: Event, t: Tid)
    requires Inv(s) && Enabled(s, e) && t in s.threads
    ensures t in Next(s, e).threads
    ensures Failing(Next(s, e).threads[t]) <==> Failing(s.threads[t]) || e == Event(t, AllocFails)
  {
    hide LockOk, LiveOk;
    assert ThreadOk(s, s.threads[t]);
  }

  lemma {:induction false} FailsFrom(s: State, run: seq<Event>, t: Tid)
    requires Inv(s) && Runs(s, run) && t in s.threads
    ensures t in Final(s, run).threads
    ensures Failing(Final(s, run).threads[t]) <==> Failing(s.threads[t]) || Event(t, AllocFails) in run
    decreases run
  {
    hide Next, Failing, Inv;
    if run != [] {
      StepInv(s, run[0]);
      StepFails(s, run[0], t);
      FailsFrom(Next(s, run[0]), run[1..], t);
      assert run == [run[0]] + run[1..];
    }
  }

  /** A call returns NULL if and only if an allocation of its own failed. */
  lemma FailureIsOwnAllocation(s: State, run: seq<Event>, t: Tid)
    requires Init(s) && Runs(s, run)
    requires t in Final(s, run).threads && Final(s, run).threads[t].phase.Done?
    ensures Final(s, run).threads[t].phase.result.None? <==> Event(t, AllocFails) in run
  {
    InitInv(s);
    EventsKeepThreads(s, run);
    FailsFrom(s, run, t);
  }

  lemma {:induction false} EventsKeepThreads(s: State, run: seq<Event>)
    requires Runs(s, run)
    ensures Final(s, run).threads.Keys == s.threads.Keys
    decreases run
  {
    if run != [] {
      EventsKeepThreads(Next(s, run[0]), run[1..]);
    }
  }

  /** Has allocated id. */
  predicate Owns(t: Thread, id: Id) {
    match t.phase
    case Allocated(i) => i == id
    case Initialised(i) => i == id
    case Unlocking(r) => r == Some(id)
    case Done(r) => r == Some(id)
    case _ => false
  }

  lemma StepOwns(s: State, e: Event, u: Tid, id: Id)
    requires Inv(s) && Enabled(s, e) && u in s.threads && Owns(s.threads[u], id)
    ensures u in Next(s, e).threads && Owns(Next(s, e).threads[u], id)
    ensures e == Event(u, StoreVisible) ==> Next(s, e).privateData == Some(id)
  {
    hide LockOk, LiveOk;
    assert ThreadOk(s, s.threads[u]);
  }

  lemma {:induction false} OwnerPublishes(s: State, run: seq<Event>, u: Tid, id: Id)
    requires Inv(s) && Runs(s, run) && u in s.threads && Owns(s.threads[u], id) && Event(u, StoreVisible) in run
    ensures Final(s, run).privateData == Some(id)
    decreases run
  {
    hide Next, Owns, Inv;
    StepInv(s, run[0]);
    StepOwns(s, run[0], u, id);
    if run[0] == Event(u, StoreVisible) {
      PublicationsFrom(Next(s, run[0]), run[1..]);
    } else {
      assert run == [run[0]] + run[1..];
      OwnerPublishes(Next(s, run[0]), run[1..], u, id);
    }
  }

  /** Thread u allocates id and later makes it visible: then every call that returns, unless an allocation of its own
      failed, returns id. */
  lemma SuccessIsThePublished(s: State, run: seq<Event>, u: Tid, id: Id, k: nat, t: Tid)
    requires Init(s) && Runs(s, run) && k < |run| && run[k] == Event(u, Alloc(id)) && Event(u, StoreVisible) in run[k..]
    requires t in Final(s, run).threads && Final(s, run).threads[t].phase.Done? && Event(t, AllocFails) !in run
    ensures Final(s, run).threads[t].phase.result == Some(id)
  {
    InitInv(s);
    Split(s, run, k);
    RunInv(s, run[..k]);
    var before, rest := Final(s, run[..k]), run[k..];
    StepInv(before, rest[0]);
    assert rest[1..] == run[k + 1..] && rest == [rest[0]] + rest[1..];
    AllocOwns(before, u, id);
    OwnerPublishes(Next(before, rest[0]), rest[1..], u, id);
    FailureIsOwnAllocation(s, run, t);
    CallersAgree(s, run, t);
  }

  lemma AllocOwns(s: State, u: Tid, id: Id)
    requires Enabled(s, Event(u, Alloc(id)))
    ensures u in Next(s, Event(u, Alloc(id))).threads && Owns(Next(s, Event(u, Alloc(id))).threads[u], id)
    ensures id !in Next(s, Event(u, Alloc(id))).ready
  {
  }

  lemma StepInitialises(s: State, e: Event, u: Tid, id: Id)
    requires Inv(s) && Enabled(s, e) && u in s.threads && Owns(s.threads[u], id) && id !in s.ready
    requires e != Event(u, InitVisible)
    ensures id !in Next(s, e).ready
  {
    assert ThreadOk(s, s.threads[u]) && ThreadOk(s, s.threads[e.tid]);
    assert HoldsLock(s.threads[u].phase);
  }

  lemma {:induction false} ReadyFrom(s: State, run: seq<Event>, u: Tid, id: Id)
    requires Inv(s) && Runs(s, run) && u in s.threads && Owns(s.threads[u], id) && id !in s.ready
    ensures id in Final(s, run).ready ==> Event(u, InitVisible) in run
    decreases run
  {
    hide Next, Owns, Inv;
    if run != [] && run[0] != Event(u, InitVisible) {
      StepInv(s, run[0]);
      StepOwns(s, run[0], u, id);
      StepInitialises(s, run[0], u, id);
      ReadyFrom(Next(s, run[0]), run[1..], u, id);
      assert run == [run[0]] + run[1..];
    }
  }

  /** Before any call returns the state that u allocated, u's initialisation of it has become visible. */
  lemma ReturnedIsInitialised(s: State, run: seq<Event>, u: Tid, id: Id, k: nat, t: Tid)
    requires Init(s) && Runs(s, run) && k < |run| && run[k] == Event(u, Alloc(id))
    requires t in Final(s, run).threads && Final(s, run).threads[t].phase == Done(Some(id))
    ensures Event(u, InitVisible) in run[k + 1..]
  {
    InitInv(s);
    Split(s, run, k);
    RunInv(s, run[..k]);
    var before, rest := Final(s, run[..k]), run[k..];
    StepInv(before, rest[0]);
    assert rest[1..] == run[k + 1..];
    AllocOwns(before, u, id);
    ReadyFrom(Next(before, rest[0]), rest[1..], u, id);
    CallersAgree(s, run, t);
  }

  /** Once a state is published, a call that then loads the pointer, on the fast path or under the lock, never fails and
      returns what is published. */
  lemma LoadAfterPublicationSucceeds(s: State, run: seq<Event>, p: nat, k: nat, t: Tid)
    requires Init(s) && Runs(s, run) && p < k < |run| && run[p].action.StoreVisible?
    requires run[k].tid == t && (run[k].action.FastLoad? || run[k].action.SecondLoad?)
    ensures Event(t, AllocFails) !in run && t in Final(s, run).threads
    ensures Final(s, run).threads[t].phase.Done? ==>
              Final(s, run).privateData != None && Final(s, run).threads[t].phase.result == Final(s, run).privateData
  {
    InitInv(s);
    Split(s, run, k);
    RunInv(s, run[..k]);
    var before, rest := Final(s, run[..k]), run[k..];
    PublishedBy(s, run[..k], p);
    EventsKeepThreads(s, run[..k]);
    FailsFrom(s, run[..k], t);
    LoadSucceeds(before, rest[0]);
    StepInv(before, rest[0]);
    NeverFailsAfter(Next(before, rest[0]), rest[1..], t);
    assert run == run[..k] + rest && rest == [rest[0]] + rest[1..];
    EventsKeepThreads(s, run);
    if Final(s, run).threads[t].phase.Done? {
      FailureIsOwnAllocation(s, run, t);
      CallersAgree(s, run, t);
    }
  }

  lemma PublishedBy(s: State, run: seq<Event>, p: nat)
    requires Inv(s) && Runs(s, run) && p < |run| && run[p].action.StoreVisible?
    ensures Final(s, run).privateData.Some?
  {
    Split(s, run, p);
    RunInv(s, run[..p]);
    var before, rest := Final(s, run[..p]), run[p..];
    StepInv(before, rest[0]);
    PublicationsFrom(Next(before, rest[0]), rest[1..]);
  }

  predicate Succeeding(t: Thread) {
    (t.phase.Unlocking? || t.phase.Done?) && t.phase.result.Some?
  }

  lemma LoadSucceeds(s: State, e: Event)
    requires Enabled(s, e) && s.privateData.Some? && (e.action.FastLoad? || e.action.SecondLoad?)
    ensures !Failing(s.threads[e.tid])
    ensures e.tid in Next(s, e).threads && Succeeding(Next(s, e).threads[e.tid])
  {
  }

  lemma {:induction false} NeverFailsAfter(s: State, run: seq<Event>, t: Tid)
    requires Inv(s) && Runs(s, run) && t in s.threads && Succeeding(s.threads[t])
    ensures Event(t, AllocFails) !in run
    decreases run
  {
    if run != [] {
      StepInv(s, run[0]);
      NeverFailsAfter(Next(s, run[0]), run[1..], t);
      assert run == [run[0]] + run[1..];
    }
  }

  /** No state is leaked: while nobody holds the lock, whatever was allocated is reachable from the file. */
  lemma NothingLeaks(s: State, run: seq<Event>)
    requires Init(s) && Runs(s, run) && Final(s, run).lockOwner.None?
    ensures var f := Final(s, run);
            f.live == if f.privateData.Some? then {f.privateData.value} else {}
  {
    InitInv(s);
    RunInv(s, run);
  }

  /** A bound on the events a thread has left. */
  ghost function Remaining(t: Thread): nat {
    var stores := (if t.pendingInit.Some? then 1 else 0) + if t.pendingPublish.Some? then 1 else 0;
    stores + match t.phase
             case Start => 9
             case WantLock => 8
             case Locked => 7
             case MustAlloc => 6
             case Allocated(_) => 5
             case Initialised(_) => 3
             case Unlocking(_) => 1
             case Done(_) => 0
  }

  ghost function EventsOf(run: seq<Event>, t: Tid): nat {
    if run == [] then 0 else (if run[0].tid == t then 1 else 0) + EventsOf(run[1..], t)
  }

  lemma StepShrinks(s: State, e: Event)
    requires Inv(s) && Enabled(s, e)
    ensures Next(s, e).threads.Keys == s.threads.Keys
    ensures Remaining(Next(s, e).threads[e.tid]) < Remaining(s.threads[e.tid])
    ensures forall t :: t in s.threads && t != e.tid ==> Next(s, e).threads[t] == s.threads[t]
  {
    hide LockOk, LiveOk;
    assert ThreadOk(s, s.threads[e.tid]);
  }

  lemma {:induction false} EventsAreBounded(s: State, run: seq<Event>, t: Tid)
    requires Inv(s) && Runs(s, run) && t in s.threads
    ensures t in Final(s, run).threads
    ensures EventsOf(run, t) + Remaining(Final(s, run).threads[t]) <= Remaining(s.threads[t])
    decreases run
  {
    hide Next, Remaining, Inv;
    if run != [] {
      StepInv(s, run[0]);
      StepShrinks(s, run[0]);
      EventsAreBounded(Next(s, run[0]), run[1..], t);
    }
  }

  /** Something can always happen until every call has returned. */
  lemma NoDeadlock(s: State, t: Tid) returns (e: Event)
    requires Inv(s) && t in s.threads && !s.threads[t].phase.Done?
    ensures Enabled(s, e)
  {
    var u := if s.threads[t].phase.WantLock? && s.lockOwner.Some? then s.lockOwner.value else t;
    var th := s.threads[u];
    e := Event(u,
      if th.pendingInit.Some? then InitVisible else if th.pendingPublish.Some? then StoreVisible else
      match th.phase
      case Start => FastLoad
      case WantLock => Lock
      case Locked => SecondLoad
      case MustAlloc => AllocFails
      case Allocated(_) => InitLock
      case Initialised(_) => ReleaseStore
      case _ => Unlock);
  }

  /** So no call takes more than nine events, and a run that cannot be continued has every call returned. */
  lemma EveryCallReturns(s: State, run: seq<Event>, t: Tid)
    requires Init(s) && Runs(s, run) && t in s.threads
    ensures EventsOf(run, t) <= 9
    ensures t in Final(s, run).threads
    ensures (forall e :: !Enabled(Final(s, run), e)) ==> Final(s, run).threads[t].phase.Done?
  {
    InitInv(s);
    RunInv(s, run);
    EventsAreBounded(s, run, t);
    if !Final(s, run).threads[t].phase.Done? {
      var e := NoDeadlock(Final(s, run), t);
    }
  }
}
