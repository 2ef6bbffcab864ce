/** The registry of src/anticheat_module.c with every caller cut where another can come in between: each section under
    the registry lock, each lookup that takes a task reference and each drop of one is a step of its own, and the steps
    of all callers interleave in any order. The fork probe takes the lock to see whether the parent is protected, to
    read its flag and to list the child; the exit probe to see whether the task is protected and to remove it. */
module ForkRaces {
  import opened Common
  import opened Registry

  type Handler = nat    // a running call or probe

  datatype Flight =
    | Adding(task: Task, info: Info)                                           // ADD_PROC, the task looked up
    | Deleting(task: Task)                                                     // DEL_PROC, the task looked up
    | Seen(parent: Task)                                                       // fork: the parent is protected
    | Found(parent: Task, child: Task, pid: int, comm: string)                 // the child is looked up
    | Flagged(parent: Task, child: Task, pid: int, comm: string, jit: bool)    // the parent's flag is read
    | Leaving(task: Task)                                                      // exit: the task is protected
    | Returning(task: Task)                                                    // about to drop its reference

  datatype State = State(listing: Listing, refs: multiset<Task>, flights: map<Handler, Flight>)

  datatype Move =
    | AddFind(h: Handler, task: Task, info: Info)
    | AddSection(h: Handler)
    | DelFind(h: Handler, task: Task)
    | DelSection(h: Handler)
    | RefFind(h: Handler, task: Task)                                          // the --ns-of task, only looked at
    | CloneCheck(h: Handler, parent: Task)
    | CloneFind(h: Handler, child: Option<Task>, pid: int, comm: string)
    | CloneFlag(h: Handler)
    | CloneAdd(h: Handler)
    | ExitCheck(h: Handler, task: Task)
    | ExitDel(h: Handler)
    | Drop(h: Handler)
    | Unload

  ghost predicate Enabled(s: State, m: Move) {
    match m
    case Unload => true
    case AddFind(h, _, _) => h !in s.flights
    case DelFind(h, _) => h !in s.flights
    case RefFind(h, _) => h !in s.flights
    case CloneCheck(h, _) => h !in s.flights
    case ExitCheck(h, _) => h !in s.flights
    case AddSection(h) => h in s.flights && s.flights[h].Adding?
    case DelSection(h) => h in s.flights && s.flights[h].Deleting?
    case CloneFind(h, _, _, _) => h in s.flights && s.flights[h].Seen?
    case CloneFlag(h) => h in s.flights && s.flights[h].Found?
    case CloneAdd(h) => h in s.flights && s.flights[h].Flagged?
    case ExitDel(h) => h in s.flights && s.flights[h].Leaving?
    case Drop(h) => h in s.flights && s.flights[h].Returning?
  }

  function Flag(m: Listing, t: Task): bool {
    t in m && m[t].jit
  }

  /** A new entry takes a reference of its own. */
  function Listed(s: State, cap: nat, t: Task, info: Info): State {
    State(AddTo(s.listing, cap, t, info),
          if t !in s.listing && |s.listing| < cap then s.refs + multiset{t} else s.refs, s.flights)
  }

  /** And drops it when it goes. */
  function Unlisted(s: State, t: Task): State {
    State(s.listing - {t}, if t in s.listing then s.refs - multiset{t} else s.refs, s.flights)
  }

  function Enter(s: State, h: Handler, f: Flight): State {
    s.(flights := s.flights[h := f])
  }

  function Leave(s: State, h: Handler): State {
    s.(flights := s.flights - {h})
  }

  function Got(s: State, t: Task): State {
    s.(refs := s.refs + multiset{t})
  }

  ghost function Apply(s: State, cap: nat, m: Move): State
    requires Enabled(s, m)
  {
    match m
    case AddFind(h, t, info) => Enter(Got(s, t), h, Adding(t, info))
    case AddSection(h) =>
      var f := s.flights[h];
      Enter(Listed(s, cap, f.task, f.info), h, Returning(f.task))
    case DelFind(h, t) => Enter(Got(s, t), h, Deleting(t))
    case DelSection(h) => Enter(Unlisted(s, s.flights[h].task), h, Returning(s.flights[h].task))
    case RefFind(h, t) => Enter(Got(s, t), h, Returning(t))
    case CloneCheck(h, parent) => if parent in s.listing then Enter(s, h, Seen(parent)) else s
    case CloneFind(h, child, pid, comm) =>
      if child.Some? then Enter(Got(s, child.value), h, Found(s.flights[h].parent, child.value, pid, comm))
      else Leave(s, h)
    case CloneFlag(h) =>
      var f := s.flights[h];
      Enter(s, h, Flagged(f.parent, f.child, f.pid, f.comm, Flag(s.listing, f.parent)))
    case CloneAdd(h) =>
      var f := s.flights[h];
      Enter(Listed(s, cap, f.child, Info(f.pid, f.comm, f.jit)), h, Returning(f.child))
    case ExitCheck(h, t) => if t in s.listing then Enter(s, h, Leaving(t)) else s
    case ExitDel(h) => Leave(Unlisted(s, s.flights[h].task), h)
    case Drop(h) => Leave(s.(refs := s.refs - multiset{s.flights[h].task}), h)
    case Unload => s.(listing := map[], refs := s.refs - multiset(s.listing.Keys))
  }

  ghost predicate Runs(s: State, cap: nat, run: seq<Move>)
    decreases |run|, 0
  {
    run == [] || (Runs(s, cap, run[..|run| - 1]) && Enabled(Final(s, cap, run[..|run| - 1]), run[|run| - 1]))
  }

  ghost function Final(s: State, cap: nat, run: seq<Move>): State
    requires Runs(s, cap, run)
    decreases |run|, 1
  {
    if run == [] then s else Apply(Final(s, cap, run[..|run| - 1]), cap, run[|run| - 1])
  }

  lemma {:induction false} PrefixRuns(s: State, cap: nat, run: seq<Move>, k: nat)
    requires Runs(s, cap, run) && k <= |run|
    ensures Runs(s, cap, run[..k])
  {
    if k < |run| {
      PrefixRuns(s, cap, run[..|run| - 1], k);
      assert run[..|run| - 1][..k] == run[..k];
    } else {
      assert run[..k] == run;
    }
  }

  lemma NoMoves(s: State, cap: nat)
    ensures Runs(s, cap, []) && Final(s, cap, []) == s
  {
  }

  lemma OneMoreMove(s: State, cap: nat, run: seq<Move>, m: Move)
    requires Runs(s, cap, run) && Enabled(Final(s, cap, run), m)
    ensures Runs(s, cap, run + [m]) && Final(s, cap, run + [m]) == Apply(Final(s, cap, run), cap, m)
  {
    assert (run + [m])[..|run|] == run;
  }

  ghost function At(s: State, cap: nat, run: seq<Move>, k: nat): State
    requires Runs(s, cap, run) && k <= |run|
  {
    PrefixRuns(s, cap, run, k);
    Final(s, cap, run[..k])
  }

  lemma StepNeverOverfull(s: State, cap: nat, m: Move)
    requires Enabled(s, m) && |s.listing| <= cap
    ensures |Apply(s, cap, m).listing| <= cap
  {
    if m.DelSection? || m.ExitDel? {
      RemoveShrinks(s.listing, s.flights[m.h].task);
    }
  }

  /** Never more tasks than slots, in every interleaving. */
  lemma {:induction false} NeverOverfull(s: State, cap: nat, run: seq<Move>)
    requires Runs(s, cap, run) && |s.listing| <= cap
    ensures |Final(s, cap, run).listing| <= cap
  {
    hide Apply;
    if run != [] {
      var n := |run| - 1;
      NeverOverfull(s, cap, run[..n]);
      StepNeverOverfull(Final(s, cap, run[..n]), cap, run[n]);
    }
  }

  // ---- references ----

  /** The task whose reference a caller holds. */
  function Holds(f: Flight): Option<Task> {
    match f
    case Adding(t, _) => Some(t)
    case Deleting(t) => Some(t)
    case Found(_, child, _, _) => Some(child)
    case Flagged(_, child, _, _, _) => Some(child)
    case Returning(t) => Some(t)
    case Seen(_) => None
    case Leaving(_) => None
  }

  ghost function Holders<H>(flights: map<H, Flight>, t: Task): set<H> {
    set h | h in flights && Holds(flights[h]) == Some(t)
  }

  /** References to t beyond the one its entry holds. */
  function Lent(s: State, t: Task): int {
    s.refs[t] as int - if t in s.listing then 1 else 0
  }

  /** One reference for the entry, if t is listed, and one for each caller that holds one. */
  ghost predicate BalancedAt(s: State, t: Task) {
    Lent(s, t) == |Holders(s.flights, t)|
  }

  /** And so for every task. */
  ghost predicate Balanced(s: State) {
    forall t :: BalancedAt(s, t)
  }

  lemma HoldersEnter<H>(flights: map<H, Flight>, h: H, f: Flight, t: Task)
    ensures |Holders(flights[h := f], t)|
         == |Holders(flights, t)| - (if h in flights && Holds(flights[h]) == Some(t) then 1 else 0)
            + if Holds(f) == Some(t) then 1 else 0
  {
    hide Holds;
    var others := Holders(flights, t) - {h};
    assert Holders(flights[h := f], t) == if Holds(f) == Some(t) then others + {h} else others;
    assert Holders(flights, t) == if h in flights && Holds(flights[h]) == Some(t) then others + {h} else others;
  }

  lemma HoldersLeave<H>(flights: map<H, Flight>, h: H, t: Task)
    requires h in flights
    ensures |Holders(flights - {h}, t)| == |Holders(flights, t)| - if Holds(flights[h]) == Some(t) then 1 else 0
  {
    hide Holds;
    var others := Holders(flights, t) - {h};
    assert Holders(flights - {h}, t) == others;
    assert Holders(flights, t) == if Holds(flights[h]) == Some(t) then others + {h} else others;
  }

  /** A lookup takes the reference its caller then holds. */
  lemma GetBalances(s: State, h: Handler, task: Task, f: Flight, t: Task)
    requires BalancedAt(s, t) && (h in s.flights ==> Holds(s.flights[h]) == None) && Holds(f) == Some(task)
    ensures BalancedAt(Enter(Got(s, task), h, f), t)
  {
    hide Holders, Holds;
    HoldersEnter(s.flights, h, f, t);
  }

  /** A caller that goes on holds what it held. */
  lemma EnterBalances(s: State, h: Handler, f: Flight, t: Task)
    requires BalancedAt(s, t) && Holds(f) == if h in s.flights then Holds(s.flights[h]) else None
    ensures BalancedAt(Enter(s, h, f), t)
  {
    hide Holders, Holds;
    HoldersEnter(s.flights, h, f, t);
  }

  lemma LeaveBalances(s: State, h: Handler, t: Task)
    requires BalancedAt(s, t) && h in s.flights && Holds(s.flights[h]) == None
    ensures BalancedAt(Leave(s, h), t)
  {
    hide Holders, Holds;
    HoldersLeave(s.flights, h, t);
  }

  lemma DropBalances(s: State, h: Handler, t: Task)
    requires BalancedAt(s, t) && h in s.flights && s.flights[h].Returning?
    ensures BalancedAt(Leave(s.(refs := s.refs - multiset{s.flights[h].task}), h), t)
  {
    HoldersLeave(s.flights, h, t);
    if t == s.flights[h].task {
      assert h in Holders(s.flights, t);
    }
  }

  lemma ListedBalances(s: State, cap: nat, task: Task, info: Info, t: Task)
    requires BalancedAt(s, t)
    ensures BalancedAt(Listed(s, cap, task, info), t) && Listed(s, cap, task, info).flights == s.flights
  {
    hide Holders;
  }

  lemma UnlistedBalances(s: State, task: Task, t: Task)
    requires BalancedAt(s, t) && BalancedAt(s, task)
    ensures BalancedAt(Unlisted(s, task), t) && Unlisted(s, task).flights == s.flights
  {
    hide Holders;
  }

  lemma UnloadBalances(s: State, cap: nat, t: Task)
    requires BalancedAt(s, t)
    ensures BalancedAt(Apply(s, cap, Unload), t)
  {
    hide Holders;
  }

  /** Every step keeps the balance of one task's references. */
  lemma StepBalances(s: State, cap: nat, m: Move, t: Task)
    requires Enabled(s, m) && Balanced(s)
    ensures BalancedAt(Apply(s, cap, m), t)
  {
    hide BalancedAt, Listed, Unlisted, Got, Enter, Leave;
    match m {
      case AddFind(h, task, info) => GetBalances(s, h, task, Adding(task, info), t);
      case AddSection(h) =>
        var f := s.flights[h];
        ListedBalances(s, cap, f.task, f.info, t);
        EnterBalances(Listed(s, cap, f.task, f.info), h, Returning(f.task), t);
      case DelFind(h, task) => GetBalances(s, h, task, Deleting(task), t);
      case DelSection(h) =>
        var task := s.flights[h].task;
        UnlistedBalances(s, task, t);
        EnterBalances(Unlisted(s, task), h, Returning(task), t);
      case RefFind(h, task) => GetBalances(s, h, task, Returning(task), t);
      case CloneCheck(h, parent) => EnterBalances(s, h, Seen(parent), t);
      case CloneFind(h, child, pid, comm) =>
        if child.Some? {
          GetBalances(s, h, child.value, Found(s.flights[h].parent, child.value, pid, comm), t);
        } else {
          LeaveBalances(s, h, t);
        }
      case CloneFlag(h) =>
        var f := s.flights[h];
        EnterBalances(s, h, Flagged(f.parent, f.child, f.pid, f.comm, Flag(s.listing, f.parent)), t);
      case CloneAdd(h) =>
        var f := s.flights[h];
        ListedBalances(s, cap, f.child, Info(f.pid, f.comm, f.jit), t);
        EnterBalances(Listed(s, cap, f.child, Info(f.pid, f.comm, f.jit)), h, Returning(f.child), t);
      case ExitCheck(h, task) => EnterBalances(s, h, Leaving(task), t);
      case ExitDel(h) =>
        UnlistedBalances(s, s.flights[h].task, t);
        LeaveBalances(Unlisted(s, s.flights[h].task), h, t);
      case Drop(h) => DropBalances(s, h, t);
      case Unload => UnloadBalances(s, cap, t);
    }
  }

  /** In every interleaving the module holds one reference per listed task and one per caller that has borrowed one. */
  lemma {:induction false} ReferencesBalance(s: State, cap: nat, run: seq<Move>)
    requires Runs(s, cap, run) && Balanced(s)
    ensures Balanced(Final(s, cap, run))
  {
    if run != [] {
      var n := |run| - 1;
      ReferencesBalance(s, cap, run[..n]);
      var before := Final(s, cap, run[..n]);
      hide BalancedAt, Apply;
      forall t ensures BalancedAt(Apply(before, cap, run[n]), t) {
        StepBalances(before, cap, run[n], t);
      }
    }
  }

  /** What a step drops. */
  function Dropped(s: State, m: Move): multiset<Task>
    requires m.DelSection? || m.ExitDel? ==> m.h in s.flights && (s.flights[m.h].Deleting? || s.flights[m.h].Leaving?)
    requires m.Drop? ==> m.h in s.flights && s.flights[m.h].Returning?
  {
    match m
    case DelSection(h) => if s.flights[h].task in s.listing then multiset{s.flights[h].task} else multiset{}
    case ExitDel(h) => if s.flights[h].task in s.listing then multiset{s.flights[h].task} else multiset{}
    case Drop(h) => multiset{s.flights[h].task}
    case Unload => multiset(s.listing.Keys)
    case _ => multiset{}
  }

  /** A step that drops references drops exactly these, and one that drops none takes none away. */
  ghost predicate DropsOnly(s: State, cap: nat, m: Move)
    requires Enabled(s, m)
  {
    if m.DelSection? || m.ExitDel? || m.Drop? || m.Unload? then Apply(s, cap, m).refs == s.refs - Dropped(s, m)
    else s.refs <= Apply(s, cap, m).refs
  }

  lemma DropIsExact(s: State, cap: nat, m: Move)
    requires Enabled(s, m)
    ensures DropsOnly(s, cap, m)
  {
  }

  /** So no step ever drops a reference that is not held, and whenever no call is running there is exactly one reference
      per listed task, hence none after unload. */
  lemma ReferencesAreSafe(s: State, cap: nat, run: seq<Move>)
    requires Runs(s, cap, run) && Balanced(s)
    ensures var f := Final(s, cap, run);
            && (forall m :: Enabled(f, m) ==> Dropped(f, m) <= f.refs && DropsOnly(f, cap, m))
            && (f.flights == map[] ==> f.refs == multiset(f.listing.Keys))
  {
    var f := Final(s, cap, run);
    ReferencesBalance(s, cap, run);
    forall m | Enabled(f, m) ensures Dropped(f, m) <= f.refs && DropsOnly(f, cap, m) {
      DropIsHeld(f, m);
      DropIsExact(f, cap, m);
    }
    if f.flights == map[] {
      forall t ensures f.refs[t] == multiset(f.listing.Keys)[t] {
        assert BalancedAt(f, t) && Holders(f.flights, t) == {};
      }
    }
  }

  lemma DropIsHeld(s: State, m: Move)
    requires Balanced(s) && Enabled(s, m)
    ensures Dropped(s, m) <= s.refs
  {
    forall t ensures Dropped(s, m)[t] <= s.refs[t] {
      assert BalancedAt(s, t);
      if m.Drop? && s.flights[m.h].task == t {
        assert m.h in Holders(s.flights, t);
      }
    }
  }

  // ---- inheritance over generations ----

  /** The descendants of a task that are listed, and the running forks whose parent was one of them when it was seen. */
  datatype Kin = Kin(tasks: set<Task>, forks: set<Handler>)

  /** A child of such a fork joins if it is listed or a slot is free; a task goes when it is removed. If keep, those
      whose flag another caller writes go too, and so do forks whose parent is no longer among them when its flag is
      read. */
  ghost function KinAfterStep(kin: Kin, s: State, cap: nat, m: Move, keep: bool): Kin
    requires Enabled(s, m)
  {
    match m
    case CloneCheck(h, parent) => if parent in kin.tasks then kin.(forks := kin.forks + {h}) else kin
    case CloneFind(h, child, _, _) => if child.Some? then kin else kin.(forks := kin.forks - {h})
    case CloneFlag(h) => if keep && s.flights[h].parent !in kin.tasks then kin.(forks := kin.forks - {h}) else kin
    case CloneAdd(h) =>
      var child := s.flights[h].child;
      var room := child in s.listing || |s.listing| < cap;
      Kin(if h in kin.forks then (if room then kin.tasks + {child} else kin.tasks)
          else if keep then kin.tasks - {child} else kin.tasks, kin.forks - {h})
    case AddSection(h) => if keep then kin.(tasks := kin.tasks - {s.flights[h].task}) else kin
    case DelSection(h) => kin.(tasks := kin.tasks - {s.flights[h].task})
    case ExitDel(h) => kin.(tasks := kin.tasks - {s.flights[h].task})
    case Unload => kin.(tasks := {})
    case _ => kin
  }

  ghost function KinAfter(s: State, cap: nat, run: seq<Move>, root: Task, keep: bool): Kin
    requires Runs(s, cap, run)
  {
    if run == [] then Kin(if root in s.listing then {root} else {}, {})
    else
      KinAfterStep(KinAfter(s, cap, run[..|run| - 1], root, keep), Final(s, cap, run[..|run| - 1]),
                   cap, run[|run| - 1], keep)
  }

  ghost predicate KinTask(s: State, t: Task, keep: bool, jit: bool) {
    t in s.listing && (keep ==> s.listing[t].jit == jit)
  }

  ghost predicate KinFork(s: State, h: Handler, keep: bool, jit: bool) {
    && h in s.flights && (s.flights[h].Seen? || s.flights[h].Found? || s.flights[h].Flagged?)
    && (keep && s.flights[h].Flagged? ==> s.flights[h].jit == jit)
  }

  ghost predicate KinHolds(s: State, kin: Kin, keep: bool, jit: bool) {
    && (forall t :: t in kin.tasks ==> KinTask(s, t, keep, jit))
    && (forall h :: h in kin.forks ==> KinFork(s, h, keep, jit))
  }

  /** A step changes no caller but its own. */
  lemma OthersStay(s: State, cap: nat, m: Move, h: Handler)
    requires Enabled(s, m) && (m.Unload? || m.h != h)
    ensures var fs := Apply(s, cap, m).flights;
            (h in fs <==> h in s.flights) && (h in fs ==> fs[h] == s.flights[h])
  {
    hide Listed, Unlisted;
    if !m.Unload? && (m.AddSection? || m.DelSection? || m.CloneAdd? || m.ExitDel?) {
      ListingLeavesFlights(s, cap, m.h);
    }
  }

  lemma ListingLeavesFlights(s: State, cap: nat, h: Handler)
    requires h in s.flights
    ensures s.flights[h].Adding? ==> Listed(s, cap, s.flights[h].task, s.flights[h].info).flights == s.flights
    ensures s.flights[h].Flagged? ==>
              var f := s.flights[h];
              Listed(s, cap, f.child, Info(f.pid, f.comm, f.jit)).flights == s.flights
    ensures s.flights[h].Deleting? || s.flights[h].Leaving? ==> Unlisted(s, s.flights[h].task).flights == s.flights
  {
  }

  lemma KinTaskStep(s: State, cap: nat, m: Move, kin: Kin, keep: bool, jit: bool, t: Task)
    requires Enabled(s, m) && KinHolds(s, kin, keep, jit) && t in KinAfterStep(kin, s, cap, m, keep).tasks
    ensures KinTask(Apply(s, cap, m), t, keep, jit)
  {
    if t in kin.tasks {
      assert KinTask(s, t, keep, jit);
    }
    if m.CloneAdd? && m.h in kin.forks {
      assert KinFork(s, m.h, keep, jit);
    }
  }

  lemma KinForkStep(s: State, cap: nat, m: Move, kin: Kin, keep: bool, jit: bool, h: Handler)
    requires Enabled(s, m) && KinHolds(s, kin, keep, jit) && h in KinAfterStep(kin, s, cap, m, keep).forks
    ensures KinFork(Apply(s, cap, m), h, keep, jit)
  {
    if m.Unload? || m.h != h {
      KinForksStay(kin, s, cap, m, keep, h);
      OthersStay(s, cap, m, h);
    } else {
      if h in kin.forks {
        assert KinFork(s, h, keep, jit);
      }
      if m.CloneCheck? {
        assert KinTask(s, m.parent, keep, jit);
      } else if m.CloneFlag? && keep {
        assert KinTask(s, s.flights[h].parent, keep, jit);
      }
    }
  }

  lemma KinForksStay(kin: Kin, s: State, cap: nat, m: Move, keep: bool, h: Handler)
    requires Enabled(s, m) && (m.Unload? || m.h != h)
    ensures h in KinAfterStep(kin, s, cap, m, keep).forks ==> h in kin.forks
  {
  }

  lemma KinStep(s: State, cap: nat, m: Move, kin: Kin, keep: bool, jit: bool)
    requires Enabled(s, m) && KinHolds(s, kin, keep, jit)
    ensures KinHolds(Apply(s, cap, m), KinAfterStep(kin, s, cap, m, keep), keep, jit)
  {
    var kin' := KinAfterStep(kin, s, cap, m, keep);
    hide KinTask, KinFork, Apply, KinAfterStep;
    forall t | t in kin'.tasks ensures KinTask(Apply(s, cap, m), t, keep, jit) {
      KinTaskStep(s, cap, m, kin, keep, jit, t);
    }
    forall h | h in kin'.forks ensures KinFork(Apply(s, cap, m), h, keep, jit) {
      KinForkStep(s, cap, m, kin, keep, jit, h);
    }
  }

  /** In every interleaving, descendants of any generation are protected until they are themselves removed or the module
      unloads, even if the ancestor that was seen protected is gone by the time they are listed; with no flag written by
      others on the way, they have the root's. */
  lemma DescendantsAreProtected(s: State, cap: nat, run: seq<Move>, root: Task, keep: bool, t: Task)
    requires Runs(s, cap, run) && t in KinAfter(s, cap, run, root, keep).tasks
    ensures t in Final(s, cap, run).listing
    ensures keep ==> Final(s, cap, run).listing[t].jit == Flag(s.listing, root)
  {
    KinAlwaysHolds(s, cap, run, root, keep);
    assert KinTask(Final(s, cap, run), t, keep, Flag(s.listing, root));
  }

  lemma {:induction false} KinAlwaysHolds(s: State, cap: nat, run: seq<Move>, root: Task, keep: bool)
    requires Runs(s, cap, run)
    ensures KinHolds(Final(s, cap, run), KinAfter(s, cap, run, root, keep), keep, Flag(s.listing, root))
  {
    if run != [] {
      hide Apply, KinHolds, KinAfterStep;
      var n := |run| - 1;
      KinAlwaysHolds(s, cap, run[..n], root, keep);
      KinStep(Final(s, cap, run[..n]), cap, run[n],
              KinAfter(s, cap, run[..n], root, keep), keep, Flag(s.listing, root));
    }
  }

  // ---- when a fork in several sections is a fork in one ----

  /** Whether the last section of a fork leaves the registry as one undivided fork at that moment would: exactly when
      the parent is listed with the flag that was read, or the child is to be turned away either way, or it is
      already listed with that flag and the parent is gone. */
  lemma LastSectionIsForkExactly(m: Listing, cap: nat, f: Flight)
    requires f.Flagged?
    ensures AddTo(m, cap, f.child, Info(f.pid, f.comm, f.jit))
            == Next(m, cap, Fork(f.parent, Some(f.child), f.pid, f.comm))
       <==> || (f.parent in m && m[f.parent].jit == f.jit)
            || (f.child !in m && |m| >= cap)
            || (f.parent !in m && f.child in m && m[f.child].jit == f.jit)
  {
    var added := AddTo(m, cap, f.child, Info(f.pid, f.comm, f.jit));
    if f.child in m || |m| < cap {
      assert f.child in added && added[f.child].jit == f.jit;
      if f.parent !in m && f.child in m && m[f.child].jit == f.jit {
        assert m[f.child].(jit := f.jit) == m[f.child];
        assert added == m;
      }
    }
  }

  /** The run is one fork: it begins with h seeing a protected parent and ends with h listing the child, and h neither
      begins nor ends another fork in between. */
  ghost predicate IsFork(s: State, cap: nat, run: seq<Move>, h: Handler, parent: Task) {
    && Runs(s, cap, run) && |run| >= 2
    && run[0] == CloneCheck(h, parent) && parent in s.listing && run[|run| - 1] == CloneAdd(h)
    && forall k :: 0 < k < |run| - 1 ==> !(run[k].CloneCheck? && run[k].h == h) && run[k] != CloneAdd(h)
  }

  /** At step i, h read this flag of the parent. */
  ghost predicate ReadFlag(s: State, cap: nat, run: seq<Move>, h: Handler, parent: Task, i: nat, jit: bool)
    requires Runs(s, cap, run)
  {
    0 < i < |run| && run[i] == CloneFlag(h) && jit == Flag(At(s, cap, run, i).listing, parent)
  }

  /** h looked this child up, with this pid and name. */
  ghost predicate Looked(run: seq<Move>, h: Handler, child: Task, pid: int, comm: string) {
    CloneFind(h, Some(child), pid, comm) in run
  }

  /** If h is in a fork, it is that of this parent, the child is one it looked up, and a flag it carries is one it
      read. */
  ghost predicate OnCourse(s: State, cap: nat, run: seq<Move>, h: Handler, parent: Task, fs: map<Handler, Flight>)
    requires Runs(s, cap, run)
  {
    h in fs ==>
      && (fs[h].Seen? || fs[h].Found? || fs[h].Flagged? ==> fs[h].parent == parent)
      && (fs[h].Found? || fs[h].Flagged? ==> Looked(run, h, fs[h].child, fs[h].pid, fs[h].comm))
      && (fs[h].Flagged? ==> exists i :: ReadFlag(s, cap, run, h, parent, i, fs[h].jit))
  }

  lemma {:induction false} FlightOf(s: State, cap: nat, run: seq<Move>, h: Handler, parent: Task, k: nat)
    requires IsFork(s, cap, run, h, parent) && 1 <= k < |run|
    ensures OnCourse(s, cap, run, h, parent, At(s, cap, run, k).flights)
  {
    PrefixRuns(s, cap, run, k);
    assert run[..k][..k - 1] == run[..k - 1];
    if k == 1 {
      assert run[..0] == [];
    } else {
      FlightOf(s, cap, run, h, parent, k - 1);
      PrefixRuns(s, cap, run, k - 1);
      var before := At(s, cap, run, k - 1);
      if run[k - 1] == CloneFlag(h) {
        assert ReadFlag(s, cap, run, h, parent, k - 1, Flag(before.listing, parent));
      }
      hide ReadFlag;
      StepOnCourse(s, cap, run, h, parent, before, run[k - 1]);
    }
  }

  lemma StepOnCourse(s: State, cap: nat, run: seq<Move>, h: Handler, parent: Task, before: State, m: Move)
    requires Runs(s, cap, run) && OnCourse(s, cap, run, h, parent, before.flights) && Enabled(before, m)
    requires !(m.CloneCheck? && m.h == h) && m in run
    requires m == CloneFlag(h) ==> exists i :: ReadFlag(s, cap, run, h, parent, i, Flag(before.listing, parent))
    ensures OnCourse(s, cap, run, h, parent, Apply(before, cap, m).flights)
  {
    hide ReadFlag, Runs, Listed, Unlisted;
    if m.Unload? || m.h != h {
      OthersStay(before, cap, m, h);
    }
  }

  /** In every interleaving, once the parent was seen protected the child ends up protected exactly when it already was
      or a slot is free, even if the parent is gone by then, and its flag is the parent's when that was read. */
  lemma InterleavedForkInherits(s: State, cap: nat, run: seq<Move>, h: Handler, parent: Task)
    requires IsFork(s, cap, run, h, parent)
    ensures var before, after := At(s, cap, run, |run| - 1), Final(s, cap, run).listing;
            && h in before.flights && before.flights[h].Flagged?
            && var child := before.flights[h].child;
               && Looked(run, h, child, before.flights[h].pid, before.flights[h].comm)
               && (child in after <==> child in before.listing || |before.listing| < cap)
               && (child in after ==> exists i :: ReadFlag(s, cap, run, h, parent, i, after[child].jit))
  {
    var n := |run| - 1;
    FlightOf(s, cap, run, h, parent, n);
    var before := At(s, cap, run, n);
    assert Enabled(before, run[n]);
    assert exists i :: ReadFlag(s, cap, run, h, parent, i, before.flights[h].jit);
  }

  /** The parent stays listed with the flag it has at the check. */
  ghost predicate ParentKept(s: State, cap: nat, run: seq<Move>, parent: Task)
    requires Runs(s, cap, run) && parent in s.listing
  {
    forall k :: 0 <= k < |run| ==>
      var m := At(s, cap, run, k).listing;
      parent in m && m[parent].jit == s.listing[parent].jit
  }

  /** Whatever happens between its sections, a fork during which the parent's entry stays as it was has the effect of
      one undivided fork at its last section. */
  lemma InterleavedForkIsAtomic(s: State, cap: nat, run: seq<Move>, h: Handler, parent: Task)
    requires IsFork(s, cap, run, h, parent) && ParentKept(s, cap, run, parent)
    ensures var before := At(s, cap, run, |run| - 1);
            && h in before.flights && before.flights[h].Flagged?
            && var f := before.flights[h];
               Looked(run, h, f.child, f.pid, f.comm) &&
               Final(s, cap, run).listing == Next(before.listing, cap, Fork(parent, Some(f.child), f.pid, f.comm))
  {
    var n := |run| - 1;
    FlightOf(s, cap, run, h, parent, n);
    var before := At(s, cap, run, n);
    assert Enabled(before, run[n]);
    var i :| ReadFlag(s, cap, run, h, parent, i, before.flights[h].jit);
    assert Flag(At(s, cap, run, i).listing, parent) == s.listing[parent].jit;
    LastSectionIsForkExactly(before.listing, cap, before.flights[h]);
  }

  /** The steps of a fork by h with an ADD_PROC by g of its parent between the reading of the flag and the listing. */
  ghost function LateFlagRun(h: Handler, g: Handler, parent: Task, child: Task, info: Info): seq<Move> {
    [CloneCheck(h, parent), CloneFind(h, Some(child), info.pid, info.comm), CloneFlag(h),
     AddFind(g, parent, info), AddSection(g), CloneAdd(h)]
  }

  lemma LateFlagStart(s: State, cap: nat, h: Handler, g: Handler, parent: Task, child: Task, info: Info)
    requires s.flights == map[] && parent in s.listing && !s.listing[parent].jit
    ensures var start := LateFlagRun(h, g, parent, child, info)[..3];
            && Runs(s, cap, start)
            && Final(s, cap, start) == State(s.listing, s.refs + multiset{child},
                                             map[h := Flagged(parent, child, info.pid, info.comm, false)])
  {
    hide Runs, Final;
    var run := LateFlagRun(h, g, parent, child, info);
    NoMoves(s, cap);
    OneMoreMove(s, cap, [], run[0]);
    assert [] + [run[0]] == run[..1];
    OneMoreMove(s, cap, run[..1], run[1]);
    assert run[..1] + [run[1]] == run[..2];
    OneMoreMove(s, cap, run[..2], run[2]);
    assert run[..2] + [run[2]] == run[..3];
  }

  /** It need not be one otherwise: a flag set between the second and third sections does not reach the child. */
  lemma LateFlagIsMissed(s: State, cap: nat, h: Handler, g: Handler, parent: Task, child: Task, info: Info)
    requires s.flights == map[] && h != g && parent != child && child !in s.listing && |s.listing| < cap
    requires parent in s.listing && !s.listing[parent].jit && info.jit
    ensures var run := LateFlagRun(h, g, parent, child, info);
            && IsFork(s, cap, run, h, parent)
            && var after := Final(s, cap, run).listing;
               parent in after && after[parent].jit && child in after && !after[child].jit
  {
    hide Runs, Final;
    var run := LateFlagRun(h, g, parent, child, info);
    LateFlagStart(s, cap, h, g, parent, child, info);
    OneMoreMove(s, cap, run[..3], run[3]);
    assert run[..3] + [run[3]] == run[..4];
    OneMoreMove(s, cap, run[..4], run[4]);
    assert run[..4] + [run[4]] == run[..5];
    OneMoreMove(s, cap, run[..5], run[5]);
    assert run[..5] + [run[5]] == run;
  }
}
