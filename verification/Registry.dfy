/** The protected-task registry of src/anticheat_module.c: a slot array with reference counts, and
    what it guarantees over every run of additions, deletions, forks, exits and unload. */
module Registry {
  import opened Common
  import opened Slots

  type Task = nat

  const PROT_MAX: nat := 64

  /** What a slot keeps about its task; pid and comm are for display. */
  datatype Info = Info(pid: int, comm: string, jit: bool)

  type Entry = Slot<Task, Info>

  type Listing = map<Task, Info>

  datatype Code = Ok | NoSpace | NoSuchTask

  /** The listed entries in slot order, as LIST_PROTECTED reports them. */
  ghost function Items(s: seq<Entry>): seq<Info> {
    if s == [] then [] else
      var e := s[|s| - 1];
      Items(s[..|s| - 1]) + if e.used then [e.value] else []
  }

  // ---- the abstract operations ----

  /** A listed task only has its flag updated; a new one needs a slot. */
  function AddTo(m: Listing, cap: nat, t: Task, info: Info): Listing {
    if t in m then m[t := m[t].(jit := info.jit)] else if |m| < cap then m[t := info] else m
  }

  datatype Step =
    | Add(target: Option<Task>, info: Info)                           // ADD_PROC, with what the pid resolved to
    | Del(target: Option<Task>)                                       // DEL_PROC
    | Fork(parent: Task, child: Option<Task>, pid: int, comm: string) // return of kernel_clone in parent
    | Exit(task: Task)
    | List
    | Clear                                                           // module unload

  function Next(m: Listing, cap: nat, step: Step): Listing {
    match step
    case Add(target, info) => if target.Some? then AddTo(m, cap, target.value, info) else m
    case Del(target) => if target.Some? then m - {target.value} else m
    case Fork(parent, child, pid, comm) =>
      if parent in m && child.Some? then AddTo(m, cap, child.value, Info(pid, comm, m[parent].jit)) else m
    case Exit(task) => m - {task}
    case List => m
    case Clear => map[]
  }

  /** Whether a fork event ("protection inherited") is raised: for a protected parent and a resolved child,
      whatever became of the child. */
  predicate ForkEvent(m: Listing, parent: Task, child: Option<Task>) {
    parent in m && child.Some?
  }

  // ---- the slot array ----

  lemma OneLess(a: set<Task>, t: Task)
    requires t in a
    ensures t in multiset(a) && multiset(a - {t}) == multiset(a) - multiset{t}
  {
  }

  lemma OneMore(a: set<Task>, t: Task)
    requires t !in a
    ensures multiset(a + {t}) == multiset(a) + multiset{t}
  {
  }

  class Table {
    const slots: array<Entry>
    var count: nat
    var refs: multiset<Task>    // task references the module holds

    /** Between calls the module holds one reference per listed task, plus those a running call borrows. */
    ghost predicate HoldingRefs(borrowed: multiset<Task>)
      reads this, slots
    {
      Distinct(slots[..]) && refs == multiset(Keys(slots[..])) + borrowed
    }

    ghost predicate Holding(borrowed: multiset<Task>)
      reads this, slots
    {
      HoldingRefs(borrowed) && count == |Occupied(slots[..])|
    }

    ghost predicate Valid()
      reads this, slots
    {
      Holding(multiset{})
    }

    ghost function Abstract(): Listing
      reads this, slots
    {
      Entries(slots[..])
    }

    constructor (capacity: nat := PROT_MAX)
      ensures Valid() && fresh(slots) && slots.Length == capacity && Abstract() == map[]
    {
      slots := new Entry[capacity](_ => Slot(false, 0, Info(0, "", false)));
      count := 0;
      refs := multiset{};
      new;
      AllFree(slots[..]);
    }

    method GetTask(t: Task)
      modifies this`refs
      ensures refs == old(refs) + multiset{t}
    {
      refs := refs + multiset{t};
    }

    /** A reference may only be dropped while it is held. */
    method PutTask(t: Task)
      requires t in refs
      modifies this`refs
      ensures refs == old(refs) - multiset{t}
    {
      refs := refs - multiset{t};
    }

    method WriteSlot(i: nat, t: Task, info: Info)
      requires Distinct(slots[..]) && i < slots.Length
      requires if slots[i].used then slots[i].key == t else t !in Keys(slots[..])
      modifies slots
      ensures Distinct(slots[..]) && Occupied(slots[..]) == old(Occupied(slots[..])) + {i}
      ensures Keys(slots[..]) == old(Keys(slots[..])) + {t} && Abstract() == old(Abstract())[t := info]
    {
      hide Occupied, Keys, Entries, Distinct;
      ghost var s := slots[..];
      Fill(s, i, t, info);
      slots[i] := Slot(true, t, info);
      assert slots[..] == s[i := Slot(true, t, info)];
    }

    method AddProtTask(t: Task, info: Info, ghost borrowed: multiset<Task>) returns (ret: Code)
      requires Holding(borrowed)
      modifies this`count, this`refs, slots
      ensures Holding(borrowed)
      ensures Abstract() == AddTo(old(Abstract()), slots.Length, t, info)
      ensures ret == if t in old(Abstract()) || |old(Abstract())| < slots.Length then Ok else NoSpace
    {
      hide Occupied, Keys, Entries, Distinct;
      var slot := -1;
      Size(slots[..]);
      for i := 0 to slots.Length
        invariant slots[..] == old(slots[..]) && unchanged(this) && -1 <= slot < i
        invariant forall k :: 0 <= k < i && slots[k].used ==> slots[k].key != t
        invariant slot == -1 ==> forall k :: 0 <= k < i ==> slots[k].used
        invariant slot >= 0 ==> !slots[slot].used
      {
        if slots[i].used && slots[i].key == t {
          Present(slots[..], i);
          WriteSlot(i, t, slots[i].value.(jit := info.jit));
          assert old(Keys(slots[..])) + {t} == old(Keys(slots[..]));
          assert old(Occupied(slots[..])) + {i} == old(Occupied(slots[..]));
          return Ok;
        }
        if !slots[i].used && slot < 0 {
          slot := i;
        }
      }
      Absent(slots[..], t);
      if slot < 0 {
        return NoSpace;
      }
      GetTask(t);
      OneMore(Keys(slots[..]), t);
      WriteSlot(slot, t, info);
      Size(slots[..]);
      count := count + 1;
      return Ok;
    }

    /** Drops slot i's reference and frees the slot. */
    method Release(i: nat, ghost borrowed: multiset<Task>)
      requires HoldingRefs(borrowed) && i < slots.Length && slots[i].used
      modifies this`refs, slots
      ensures HoldingRefs(borrowed)
      ensures slots[..] == old(slots[..])[i := old(slots[i]).(used := false)]
      ensures i in old(Occupied(slots[..])) && Occupied(slots[..]) == old(Occupied(slots[..])) - {i}
      ensures Abstract() == old(Abstract()) - {old(slots[i]).key}
    {
      hide Occupied, Keys, Entries, Distinct;
      ghost var s := slots[..];
      var t := slots[i].key;
      Present(s, i);
      Empty(s, i);
      OneLess(Keys(s), t);
      PutTask(t);
      slots[i] := slots[i].(used := false);
      assert slots[..] == s[i := s[i].(used := false)];
    }

    method DelProtTask(t: Task, ghost borrowed: multiset<Task>)
      requires Holding(borrowed)
      modifies this`count, this`refs, slots
      ensures Holding(borrowed) && Abstract() == old(Abstract()) - {t}
    {
      hide Occupied, Keys, Entries, Distinct;
      for i := 0 to slots.Length
        invariant slots[..] == old(slots[..]) && unchanged(this)
        invariant forall k :: 0 <= k < i && slots[k].used ==> slots[k].key != t
      {
        if slots[i].used && slots[i].key == t {
          Release(i, borrowed);
          count := count - 1;
          return;
        }
      }
      Absent(slots[..], t);
    }

    method ClearProtected()
      requires Valid()
      modifies this`count, this`refs, slots
      ensures Valid() && Abstract() == Next(old(Abstract()), slots.Length, Clear)
      ensures count == 0 && refs == multiset{}
    {
      hide Occupied, Keys, Entries, Distinct;
      for i := 0 to slots.Length
        invariant HoldingRefs(multiset{})
        invariant forall k :: 0 <= k < i ==> !slots[k].used
      {
        if slots[i].used {
          Release(i, multiset{});
        }
      }
      AllFree(slots[..]);
      count := 0;
    }

    method IsProtectedTask(t: Task, ghost borrowed: multiset<Task>) returns (prot: bool)
      requires Holding(borrowed)
      ensures prot <==> t in Abstract()
    {
      hide Entries, Keys, Occupied, Distinct;
      for i := 0 to slots.Length
        invariant forall k :: 0 <= k < i && slots[k].used ==> slots[k].key != t
      {
        if slots[i].used && slots[i].key == t {
          Present(slots[..], i);
          return true;
        }
      }
      Absent(slots[..], t);
      return false;
    }

    method TaskJitAllowed(t: Task, ghost borrowed: multiset<Task>) returns (jit: bool)
      requires Holding(borrowed)
      ensures jit <==> t in Abstract() && Abstract()[t].jit
    {
      hide Entries, Keys, Occupied, Distinct;
      for i := 0 to slots.Length
        invariant forall k :: 0 <= k < i && slots[k].used ==> slots[k].key != t
      {
        if slots[i].used && slots[i].key == t {
          Present(slots[..], i);
          return slots[i].value.jit;
        }
      }
      Absent(slots[..], t);
      return false;
    }

    /** At most max entries, in slot order; all of them when max is the table's size. */
    method ListProtected(max: nat, ghost borrowed: multiset<Task>) returns (out: seq<Info>)
      requires Holding(borrowed)
      ensures out <= Items(slots[..])
      ensures |out| == if count < max then count else max
    {
      out := [];
      var i := 0;
      ItemsSize(slots[..]);
      while i < slots.Length && |out| < max
        invariant i <= slots.Length && |out| <= max
        invariant out == Items(slots[..i])
      {
        assert slots[..i + 1][..i] == slots[..i];
        if slots[i].used {
          out := out + [slots[i].value];
        }
        i := i + 1;
      }
      assert slots[..slots.Length] == slots[..];
      ItemsPrefix(slots[..], i);
      assert slots[..][..i] == slots[..i];
    }

    /** Takes a reference for the duration of a call. */
    method Borrow(t: Task, ghost borrowed: multiset<Task>)
      requires Holding(borrowed)
      modifies this`refs
      ensures Holding(borrowed + multiset{t})
    {
      GetTask(t);
    }

    /** Gives it back. */
    method Return(t: Task, ghost borrowed: multiset<Task>)
      requires Holding(borrowed + multiset{t})
      modifies this`refs
      ensures Holding(borrowed)
    {
      PutTask(t);
    }

    // ---- the callers, whatever references others have borrowed ----

    /** ADD_PROC: the pid, resolved directly or in the namespace of refTask, whose reference is
        dropped before the target's is taken. */
    method AddProtPid(refPid: int, refTask: Option<Task>, resolved: Option<Task>, info: Info,
                      ghost borrowed: multiset<Task>)
      returns (ret: Code)
      requires Holding(borrowed)
      modifies this`count, this`refs, slots
      ensures Holding(borrowed)
      ensures var target := if refPid > 0 && refTask.None? then None else resolved;
              Abstract() == Next(old(Abstract()), slots.Length, Add(target, info)) &&
              ret == if target.None? then NoSuchTask
                     else if target.value in old(Abstract()) || |old(Abstract())| < slots.Length then Ok else NoSpace
    {
      hide Entries, Holding;
      if refPid > 0 {
        if refTask.None? {
          return NoSuchTask;
        }
        Borrow(refTask.value, borrowed);
        Return(refTask.value, borrowed);
      }
      if resolved.None? {
        return NoSuchTask;
      }
      var t := resolved.value;
      Borrow(t, borrowed);
      ret := AddProtTask(t, info, borrowed + multiset{t});
      Return(t, borrowed);
    }

    /** DEL_PROC */
    method DelProc(resolved: Option<Task>, ghost borrowed: multiset<Task>) returns (ret: Code)
      requires Holding(borrowed)
      modifies this`count, this`refs, slots
      ensures Holding(borrowed) && Abstract() == Next(old(Abstract()), slots.Length, Del(resolved))
      ensures ret == if resolved.Some? then Ok else NoSuchTask
    {
      hide Entries, Holding;
      if resolved.None? {
        return NoSuchTask;
      }
      var t := resolved.value;
      Borrow(t, borrowed);
      DelProtTask(t, borrowed + multiset{t});
      Return(t, borrowed);
      ret := Ok;
    }

    /** The return probe on kernel_clone, running in the parent: the child resolved from the returned pid, with
        its own pid and name, and whether the fork event is raised. */
    method CloneRet(returned: int, current: Task, resolved: Option<Task>, pid: int, comm: string,
                    ghost borrowed: multiset<Task>)
      returns (event: bool)
      requires Holding(borrowed)
      modifies this`count, this`refs, slots
      ensures Holding(borrowed)
      ensures var child := if returned > 0 then resolved else None;
              && Abstract() == Next(old(Abstract()), slots.Length, Fork(current, child, pid, comm))
              && (event <==> ForkEvent(old(Abstract()), current, child))
              && (event <==> returned > 0 && resolved.Some? && current in old(Abstract()))
    {
      hide Entries, Holding;
      if returned <= 0 {
        return false;
      }
      var prot := IsProtectedTask(current, borrowed);
      if !prot || resolved.None? {
        return false;
      }
      var child := resolved.value;
      Borrow(child, borrowed);
      var jit := TaskJitAllowed(current, borrowed + multiset{child});
      var ret := AddProtTask(child, Info(pid, comm, jit), borrowed + multiset{child});
      Return(child, borrowed);
      return true;
    }

    /** The probe on do_exit. */
    method ExitPre(current: Task, ghost borrowed: multiset<Task>) returns (event: bool)
      requires Holding(borrowed)
      modifies this`count, this`refs, slots
      ensures Holding(borrowed) && Abstract() == Next(old(Abstract()), slots.Length, Exit(current))
      ensures event <==> current in old(Abstract())
    {
      hide Entries, Holding;
      event := IsProtectedTask(current, borrowed);
      if event {
        DelProtTask(current, borrowed);
      }
    }
  }

  lemma {:induction false} ItemsPrefix(s: seq<Entry>, i: nat)
    requires i <= |s|
    ensures Items(s[..i]) <= Items(s)
  {
    if i < |s| {
      ItemsPrefix(s[..|s| - 1], i);
      assert s[..|s| - 1][..i] == s[..i];
    } else {
      assert s[..i] == s;
    }
  }

  lemma {:induction false} ItemsSize(s: seq<Entry>)
    ensures |Items(s)| == |Occupied(s)|
  {
    if s != [] {
      var n := |s| - 1;
      ItemsSize(s[..n]);
      assert Occupied(s) == Occupied(s[..n]) + if s[n].used then {n} else {};
    }
  }

  lemma {:induction false} ItemsAreSlots(s: seq<Entry>, info: Info)
    ensures info in Items(s) <==> exists i :: 0 <= i < |s| && s[i].used && s[i].value == info
  {
    if s != [] {
      var n := |s| - 1;
      ItemsAreSlots(s[..n], info);
      if info in Items(s[..n]) {
        var i :| 0 <= i < n && s[..n][i].used && s[..n][i].value == info;
        assert s[i].used && s[i].value == info;
      } else {
        assert forall i :: 0 <= i < n ==> s[..n][i] == s[i];
      }
    }
  }

  /** What LIST_PROTECTED reports is the entries of the listed tasks and nothing else. */
  lemma ItemsAreEntries(s: seq<Entry>, info: Info)
    requires Distinct(s)
    ensures info in Items(s) <==> exists t :: t in Entries(s) && Entries(s)[t] == info
  {
    hide Items;
    ItemsAreSlots(s, info);
    if info in Items(s) {
      var i :| 0 <= i < |s| && s[i].used && s[i].value == info;
      Present(s, i);
      assert s[i].key in Entries(s);
    }
    if t :| t in Entries(s) && Entries(s)[t] == info {
      var i :| i in Occupied(s) && s[i].key == t;
      Present(s, i);
    }
  }

  // ---- runs ----

  ghost function After(m: Listing, cap: nat, run: seq<Step>): Listing {
    if run == [] then m else Next(After(m, cap, run[..|run| - 1]), cap, run[|run| - 1])
  }

  predicate Removes(step: Step, t: Task) {
    step == Exit(t) || step == Del(Some(t)) || step.Clear?
  }

  predicate Rewrites(step: Step, t: Task) {
    (step.Add? && step.target == Some(t)) || (step.Fork? && step.child == Some(t))
  }

  /** A resolved child of a protected parent ends up protected exactly when it already was or a slot was
      free, and then has the flag its parent had at that moment; the event is raised in either case. */
  lemma ForkInherits(m: Listing, cap: nat, parent: Task, child: Task, pid: int, comm: string)
    requires parent in m
    ensures var m' := Next(m, cap, Fork(parent, Some(child), pid, comm));
            && (child in m' <==> child in m || |m| < cap)
            && (child in m || |m| < cap ==> m'[child].jit == m[parent].jit)
            && (forall t :: t in m && t != child ==> t in m' && m'[t] == m[t])
            && ForkEvent(m, parent, Some(child))
  {
  }

  /** Protecting cap tasks one after the other, and a fork of the first. */
  ghost function FillThenFork(cap: nat, info: Info): seq<Step> {
    Filling(cap, info) + [Fork(0, Some(cap), info.pid, info.comm)]
  }

  ghost function Filling(n: nat, info: Info): seq<Step> {
    seq(n, (i: nat) => Add(Some(i), info))
  }

  lemma {:induction false} FillingFills(cap: nat, n: nat, info: Info)
    requires n <= cap
    ensures var m := After(map[], cap, Filling(n, info));
            |m| == n && forall t :: t in m <==> 0 <= t < n
  {
    if n > 0 {
      assert Filling(n, info)[..n - 1] == Filling(n - 1, info);
      FillingFills(cap, n - 1, info);
    }
  }

  /** The loss happens: with every slot taken, a protected parent's child stays unprotected although
      the event says otherwise. */
  lemma FullRegistryLosesChild(cap: nat, info: Info)
    requires cap > 0
    ensures var before, run := After(map[], cap, Filling(cap, info)), FillThenFork(cap, info);
            && 0 in before && ForkEvent(before, 0, Some(cap))
            && After(map[], cap, run) == before && cap !in before
  {
    FillingFills(cap, cap, info);
    assert FillThenFork(cap, info)[..cap] == Filling(cap, info);
  }

  // ---- which tasks are listed after a run ----

  /** Step k lists t, or leaves it listed: it is added, or forked from a listed parent, with an entry or a slot. */
  ghost predicate Lists(m: Listing, cap: nat, run: seq<Step>, k: nat, t: Task)
    requires k < |run|
  {
    var before := After(m, cap, run[..k]);
    && Rewrites(run[k], t)
    && (run[k].Fork? ==> run[k].parent in before)
    && (t in before || |before| < cap)
  }

  /** Listed at step k and not removed since. */
  ghost predicate ListedSince(m: Listing, cap: nat, run: seq<Step>, k: nat, t: Task) {
    k < |run| && Lists(m, cap, run, k, t) && forall j :: k < j < |run| ==> !Removes(run[j], t)
  }

  lemma ListedSinceExtends(m: Listing, cap: nat, run: seq<Step>, k: nat, t: Task)
    requires k < |run| - 1
    ensures ListedSince(m, cap, run, k, t) <==>
            ListedSince(m, cap, run[..|run| - 1], k, t) && !Removes(run[|run| - 1], t)
  {
    hide After, Removes, Rewrites;
    var n := |run| - 1;
    assert run[..n][..k] == run[..k];
    assert forall j :: k < j < n ==> run[..n][j] == run[j];
    assert run[..n][k] == run[k];
  }

  lemma StepLists(before: Listing, cap: nat, step: Step, t: Task)
    ensures t in Next(before, cap, step) <==>
            || (Rewrites(step, t) && (step.Fork? ==> step.parent in before) && (t in before || |before| < cap))
            || (t in before && !Removes(step, t))
  {
  }

  lemma ListedByStep(m: Listing, cap: nat, run: seq<Step>, t: Task)
    requires run != []
    ensures t in After(m, cap, run) <==>
            Lists(m, cap, run, |run| - 1, t) || (t in After(m, cap, run[..|run| - 1]) && !Removes(run[|run| - 1], t))
  {
    hide Next, Rewrites, Removes;
    StepLists(After(m, cap, run[..|run| - 1]), cap, run[|run| - 1], t);
  }

  /** Exactly which tasks a run leaves listed. */
  lemma {:induction false} ListedExactly(m: Listing, cap: nat, run: seq<Step>, t: Task)
    ensures t in After(m, cap, run) <==>
            (exists k :: ListedSince(m, cap, run, k, t))
            || (t in m && forall j :: 0 <= j < |run| ==> !Removes(run[j], t))
  {
    hide Lists, Removes, After;
    if run == [] {
      AfterNothing(m, cap);
    } else {
      var n := |run| - 1;
      ListedExactly(m, cap, run[..n], t);
      ListedByStep(m, cap, run, t);
      forall k | 0 <= k < n
        ensures ListedSince(m, cap, run, k, t) <==> ListedSince(m, cap, run[..n], k, t) && !Removes(run[n], t)
      {
        ListedSinceExtends(m, cap, run, k, t);
      }
      assert ListedSince(m, cap, run, n, t) <==> Lists(m, cap, run, n, t);
      assert forall j :: 0 <= j < n ==> run[..n][j] == run[j];
    }
  }

  lemma AfterNothing(m: Listing, cap: nat)
    ensures After(m, cap, []) == m
  {
  }

  // ---- what is kept about a listed task ----

  /** Step k gives t a new entry, and nothing has removed it since. */
  ghost predicate EnteredAt(m: Listing, cap: nat, run: seq<Step>, k: nat, t: Task) {
    ListedSince(m, cap, run, k, t) && t !in After(m, cap, run[..k])
  }

  /** Step k is the last to list t or to write its flag, and nothing has removed it since. */
  ghost predicate LastWrittenAt(m: Listing, cap: nat, run: seq<Step>, k: nat, t: Task) {
    ListedSince(m, cap, run, k, t) && forall j :: k < j < |run| ==> !Lists(m, cap, run, j, t)
  }

  /** The pid and name an addition or a fork comes with. */
  function PidOf(step: Step): int
    requires step.Add? || step.Fork?
  {
    if step.Add? then step.info.pid else step.pid
  }

  function CommOf(step: Step): string
    requires step.Add? || step.Fork?
  {
    if step.Add? then step.info.comm else step.comm
  }

  /** The flag an addition asks for, or the one the forking parent has then. */
  ghost function FlagOf(m: Listing, cap: nat, run: seq<Step>, k: nat): bool
    requires k < |run| && (run[k].Add? || (run[k].Fork? && run[k].parent in After(m, cap, run[..k])))
  {
    if run[k].Add? then run[k].info.jit else After(m, cap, run[..k])[run[k].parent].jit
  }

  lemma StepKeeps(before: Listing, cap: nat, step: Step, t: Task)
    requires t in before && !Removes(step, t)
    ensures var after := Next(before, cap, step);
            && t in after && after[t].pid == before[t].pid && after[t].comm == before[t].comm
            && (!(Rewrites(step, t) && (step.Fork? ==> step.parent in before)) ==> after[t].jit == before[t].jit)
  {
  }

  lemma StepWrites(before: Listing, cap: nat, step: Step, t: Task)
    requires Rewrites(step, t) && (step.Fork? ==> step.parent in before) && (t in before || |before| < cap)
    ensures var after := Next(before, cap, step);
            && t in after && after[t].jit == (if step.Add? then step.info.jit else before[step.parent].jit)
            && (t !in before ==> after[t].pid == PidOf(step) && after[t].comm == CommOf(step))
  {
  }

  lemma PrefixLists(m: Listing, cap: nat, run: seq<Step>, n: nat, k: nat, t: Task)
    requires k < n <= |run|
    ensures Lists(m, cap, run[..n], k, t) <==> Lists(m, cap, run, k, t)
    ensures run[..n][..k] == run[..k] && run[..n][k] == run[k]
  {
    hide After, Rewrites;
    assert run[..n][..k] == run[..k];
  }

  /** A listed task keeps the pid and the name of the step that gave it its entry. */
  lemma {:induction false} InfoIsOfFirstListing(m: Listing, cap: nat, run: seq<Step>, k: nat, t: Task)
    requires EnteredAt(m, cap, run, k, t)
    ensures t in After(m, cap, run)
    ensures After(m, cap, run)[t].pid == PidOf(run[k]) && After(m, cap, run)[t].comm == CommOf(run[k])
  {
    hide Next, Removes, Rewrites;
    var n := |run| - 1;
    if k == n {
      StepWrites(After(m, cap, run[..n]), cap, run[n], t);
    } else {
      ListedSinceExtends(m, cap, run, k, t);
      PrefixLists(m, cap, run, n, k, t);
      InfoIsOfFirstListing(m, cap, run[..n], k, t);
      StepKeeps(After(m, cap, run[..n]), cap, run[n], t);
    }
  }

  /** And its flag is that of the last step that listed it or wrote the flag. */
  lemma {:induction false} FlagIsOfLastWrite(m: Listing, cap: nat, run: seq<Step>, k: nat, t: Task)
    requires LastWrittenAt(m, cap, run, k, t)
    ensures t in After(m, cap, run)
    ensures After(m, cap, run)[t].jit == FlagOf(m, cap, run, k)
  {
    hide Next, Removes;
    var n := |run| - 1;
    if k == n {
      StepWrites(After(m, cap, run[..n]), cap, run[n], t);
    } else {
      ListedSinceExtends(m, cap, run, k, t);
      forall j | k <= j < n ensures Lists(m, cap, run[..n], j, t) <==> Lists(m, cap, run, j, t) {
        PrefixLists(m, cap, run, n, j, t);
      }
      PrefixLists(m, cap, run, n, k, t);
      FlagIsOfLastWrite(m, cap, run[..n], k, t);
      StepKeeps(After(m, cap, run[..n]), cap, run[n], t);
      assert !Lists(m, cap, run, n, t);
    }
  }

  /** Every listed task was given its entry by such a step, or had it from the start. */
  lemma {:induction false} EveryEntryHasASource(m: Listing, cap: nat, run: seq<Step>, t: Task)
    requires t in After(m, cap, run)
    ensures || (exists k :: EnteredAt(m, cap, run, k, t))
            || (t in m && (forall j :: 0 <= j < |run| ==> !Removes(run[j], t))
                && After(m, cap, run)[t].pid == m[t].pid && After(m, cap, run)[t].comm == m[t].comm)
  {
    hide Next, Removes, Rewrites;
    if run != [] {
      var n := |run| - 1;
      var before := After(m, cap, run[..n]);
      ListedByStep(m, cap, run, t);
      if t !in before {
        assert EnteredAt(m, cap, run, n, t);
      } else {
        RemovedIsGone(before, cap, run[n], t);
        EveryEntryHasASource(m, cap, run[..n], t);
        StepKeeps(before, cap, run[n], t);
        if k :| EnteredAt(m, cap, run[..n], k, t) {
          ListedSinceExtends(m, cap, run, k, t);
          PrefixLists(m, cap, run, n, k, t);
          assert EnteredAt(m, cap, run, k, t);
        } else {
          assert forall j :: 0 <= j < n ==> run[..n][j] == run[j];
        }
      }
    }
  }

  lemma RemovedIsGone(before: Listing, cap: nat, step: Step, t: Task)
    requires t in Next(before, cap, step)
    ensures !Removes(step, t)
  {
  }

  /** A task that has exited is listed after the run exactly when a later addition, or a later return from the fork
      that made it, listed it again and nothing has removed it since. */
  lemma ExitedButListedExactly(m: Listing, cap: nat, run: seq<Step>, j: nat, t: Task)
    requires j < |run| && run[j] == Exit(t)
    ensures t in After(m, cap, run) <==> exists k :: k > j && ListedSince(m, cap, run, k, t)
  {
    hide Lists, After;
    ListedExactly(m, cap, run, t);
    if k :| ListedSince(m, cap, run, k, t) {
      ListsIsNoExit(m, cap, run, k, t);
    }
  }

  lemma ListsIsNoExit(m: Listing, cap: nat, run: seq<Step>, k: nat, t: Task)
    requires k < |run| && Lists(m, cap, run, k, t)
    ensures run[k] != Exit(t)
  {
  }

  /** That happens: a child that exits before its parent returns from the fork keeps its slot. */
  lemma ExitBeforeForkReturns(m: Listing, cap: nat, parent: Task, child: Task, pid: int, comm: string)
    requires parent in m && parent != child && |m - {child}| < cap
    ensures child in After(m, cap, [Exit(child), Fork(parent, Some(child), pid, comm)])
  {
    var run := [Exit(child), Fork(parent, Some(child), pid, comm)];
    assert run[..1] == [run[0]] && [run[0]][..0] == [];
    assert After(m, cap, run[..1]) == m - {child};
  }

  /** t descends from root through forks that found a free slot, each forking task itself a descendant at
      that moment, and nothing has removed t since; if keep, nothing has re-flagged it either. */
  ghost predicate Descends(m: Listing, cap: nat, run: seq<Step>, root: Task, t: Task, keep: bool) {
    if run == [] then t == root && root in m else
      var before, step := run[..|run| - 1], run[|run| - 1];
      if step.Fork? && step.child == Some(t) && Descends(m, cap, before, root, step.parent, keep) then
        t in After(m, cap, before) || |After(m, cap, before)| < cap
      else
        Descends(m, cap, before, root, t, keep) && !Removes(step, t) && (keep ==> !Rewrites(step, t))
  }

  /** Protection is inherited through any number of generations and lasts until the task's own exit, its
      deletion or unload; with no re-protection on the way, so is the root's flag. */
  lemma {:induction false} DescendantsAreProtected(m: Listing, cap: nat, run: seq<Step>, root: Task,
                                                   t: Task, keep: bool)
    requires Descends(m, cap, run, root, t, keep)
    ensures t in After(m, cap, run)
    ensures keep ==> root in m && After(m, cap, run)[t].jit == m[root].jit
  {
    if run != [] {
      var before, step := run[..|run| - 1], run[|run| - 1];
      if step.Fork? && step.child == Some(t) && Descends(m, cap, before, root, step.parent, keep) {
        DescendantsAreProtected(m, cap, before, root, step.parent, keep);
      } else {
        DescendantsAreProtected(m, cap, before, root, t, keep);
      }
    }
  }

  /** And never more tasks than slots. */
  lemma {:induction false} NeverOverfull(m: Listing, cap: nat, run: seq<Step>)
    requires |m| <= cap
    ensures |After(m, cap, run)| <= cap
  {
    if run != [] {
      NeverOverfull(m, cap, run[..|run| - 1]);
      var before := After(m, cap, run[..|run| - 1]);
      match run[|run| - 1] {
        case Del(target) => if target.Some? { RemoveShrinks(before, target.value); }
        case Exit(t) => RemoveShrinks(before, t);
        case _ =>
      }
    }
  }

  lemma RemoveShrinks(m: Listing, t: Task)
    ensures |m - {t}| <= |m|
  {
    assert (m - {t}).Keys == m.Keys - {t};
  }
}
