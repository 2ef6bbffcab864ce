/** The daemon's 64-slot per-pid tables, from src/anticheat_daemon.c: the anonymous-mapping baseline
    (the implicit-layer baseline works the same way) and the warned-once table (kept twice, for
    LD_PRELOAD and for Vulkan layers). */
module PidTables {
  import opened Sets
  import opened Slots

  datatype Pid = Pid(nr: int)

  ghost function Elements<P>(list: seq<P>): set<P> {
    set p | p in list
  }

  lemma {:induction false} ElementsSize<P>(list: seq<P>)
    ensures |Elements(list)| <= |list|
  {
    if list != [] {
      var n := |list| - 1;
      ElementsSize(list[..n]);
      assert list == list[..n] + [list[n]];
      assert Elements(list) == Elements(list[..n]) + {list[n]};
    }
  }

  /** The entries of listed keys. */
  ghost function Restrict<P, V>(m: map<P, V>, list: seq<P>): map<P, V> {
    map p | p in m && p in list :: m[p]
  }

  lemma RestrictUnique<P, V>(m: map<P, V>, a: map<P, V>, list: seq<P>)
    requires forall p :: p in a ==> p in m && a[p] == m[p]
    requires forall p :: p in a ==> p in list
    requires forall p :: p in m && p in list ==> p in a
    ensures a == Restrict(m, list)
  {
  }

  /** A table that only knows listed keys has room for one more listed key. */
  lemma RoomForListed<P, V>(m: map<P, V>, list: seq<P>, p: P)
    requires m.Keys <= Elements(list) && p in list && p !in m
    ensures |m| < |list|
  {
    ElementsSize(list);
    SubsetSize(m.Keys + {p}, Elements(list));
  }

  class Table {
    const slots: array<Slot<Pid, nat>>

    ghost predicate Valid()
      reads this, slots
    {
      Distinct(slots[..])
    }

    ghost function Abstract(): map<Pid, nat>
      reads this, slots
    {
      Entries(slots[..])
    }

    constructor (capacity: nat)
      ensures Valid() && fresh(slots) && slots.Length == capacity && Abstract() == map[]
    {
      slots := new Slot<Pid, nat>[capacity](_ => Slot(false, Pid(0), 0));
      new;
      AllFree(slots[..]);
    }

    /** Frees the slots of pids that are no longer listed. */
    method ForgetStale(list: seq<Pid>)
      requires Valid()
      modifies slots
      ensures Valid() && Abstract() == Restrict(old(Abstract()), list)
    {
      hide Occupied, Keys, Entries, Distinct;
      ghost var m := Abstract();
      for i := 0 to slots.Length
        invariant Valid()
        invariant forall p :: p in Abstract() ==> p in m && Abstract()[p] == m[p]
        invariant forall p :: p in m && p in list ==> p in Abstract()
        invariant forall k :: 0 <= k < i && slots[k].used ==> slots[k].key in list
      {
        if slots[i].used {
          var j := 0;
          while j < |list| && list[j] != slots[i].key
            invariant j <= |list| && forall k :: 0 <= k < j ==> list[k] != slots[i].key
          {
            j := j + 1;
          }
          if j == |list| {
            ghost var s := slots[..];
            Empty(s, i);
            slots[i] := slots[i].(used := false);
            assert slots[..] == s[i := s[i].(used := false)];
          }
        }
      }
      forall p | p in Abstract() ensures p in list {
        if forall k :: 0 <= k < slots.Length && slots[k].used ==> slots[k].key != p {
          Absent(slots[..], p);
        }
      }
      RestrictUnique(m, Abstract(), list);
    }

    method Contains(pid: Pid) returns (yes: bool)
      requires Valid()
      ensures yes <==> pid in Abstract()
    {
      hide Occupied, Keys, Entries, Distinct;
      for i := 0 to slots.Length
        invariant forall k :: 0 <= k < i && slots[k].used ==> slots[k].key != pid
      {
        if slots[i].used && slots[i].key == pid {
          Present(slots[..], i);
          return true;
        }
      }
      Absent(slots[..], pid);
      return false;
    }

    /** Finds the pid's slot, or else the first free one (slots.Length: there is none). */
    method Find(pid: Pid) returns (slot: nat, found: bool)
      requires Valid()
      ensures found ==> slot < slots.Length && slots[slot].used && slots[slot].key == pid
      ensures !found ==> pid !in Abstract() && slot <= slots.Length && (slot < slots.Length ==> !slots[slot].used)
      ensures !found ==> (slot == slots.Length <==> |Abstract()| == slots.Length)
    {
      hide Occupied, Keys, Entries, Distinct;
      slot := slots.Length;
      Size(slots[..]);
      for i := 0 to slots.Length
        invariant slot < i || slot == slots.Length
        invariant forall k :: 0 <= k < i && slots[k].used ==> slots[k].key != pid
        invariant slot == slots.Length ==> forall k :: 0 <= k < i ==> slots[k].used
        invariant slot < slots.Length ==> !slots[slot].used
      {
        if slots[i].used && slots[i].key == pid {
          return i, true;
        }
        if slot == slots.Length && !slots[i].used {
          slot := i;
        }
      }
      Absent(slots[..], pid);
      found := false;
    }

    method Write(slot: nat, pid: Pid, count: nat)
      requires Valid() && slot < slots.Length
      requires if slots[slot].used then slots[slot].key == pid else pid !in Abstract()
      modifies slots
      ensures Valid() && Abstract() == old(Abstract())[pid := count]
    {
      hide Occupied, Entries, Distinct;
      ghost var s := slots[..];
      EntriesKeys(s);
      Fill(s, slot, pid, count);
      slots[slot] := Slot(true, pid, count);
      assert slots[..] == s[slot := Slot(true, pid, count)];
    }

    /** Records a scan of a pid and says whether its count grew since the last one. */
    method Check(pid: Pid, count: nat) returns (grew: bool, was: nat)
      requires Valid()
      modifies slots
      ensures Valid()
      ensures Abstract() == if pid in old(Abstract()) || |old(Abstract())| < slots.Length
                            then old(Abstract())[pid := count] else old(Abstract())
      ensures grew <==> pid in old(Abstract()) && count > old(Abstract())[pid]
      ensures grew ==> was == old(Abstract())[pid]
    {
      hide Occupied, Keys, Entries, Distinct;
      grew, was := false, 0;
      Size(slots[..]);
      var slot, found := Find(pid);
      if found {
        Present(slots[..], slot);
        was := slots[slot].value;
        grew := count > was;
        Write(slot, pid, count);
      } else if slot != slots.Length {
        Write(slot, pid, count);
      }
    }

    /** preload_mark_warned() and vklayer_mark_warned() */
    method MarkWarned(pid: Pid)
      requires Valid()
      modifies slots
      ensures Valid()
      ensures Abstract() == if pid !in old(Abstract()) && |old(Abstract())| < slots.Length
                            then old(Abstract())[pid := 0] else old(Abstract())
    {
      hide Occupied, Keys, Entries, Distinct;
      Size(slots[..]);
      var slot, found := Find(pid);
      if found {
        Present(slots[..], slot);
      } else if slot != slots.Length {
        Write(slot, pid, 0);
      }
    }
  }

  lemma EntriesKeys(s: seq<Slot<Pid, nat>>)
    ensures Entries(s).Keys == Keys(s)
  {
  }

  // ---- the growth alert ----

  /** One listed process in a cycle, with its anonymous-executable count if the scan succeeded. */
  datatype Visit = Visit(pid: Pid, scan: Scan)

  datatype Scan = Failed | Counted(count: nat)

  datatype Alert = Alert(pid: Pid, was: nat, now: nat)

  ghost function Pids(visits: seq<Visit>): seq<Pid> {
    seq(|visits|, i requires 0 <= i < |visits| => visits[i].pid)
  }

  /** The counts after the first visits of a cycle, with no limit on how many are kept. */
  ghost function Seen(m: map<Pid, nat>, visits: seq<Visit>): map<Pid, nat> {
    if visits == [] then m else
      var before, v := Seen(m, visits[..|visits| - 1]), visits[|visits| - 1];
      if v.scan.Counted? then before[v.pid := v.scan.count] else before
  }

  ghost function Growth(m: map<Pid, nat>, visits: seq<Visit>): seq<Alert> {
    if visits == [] then [] else
      var before, v := Seen(m, visits[..|visits| - 1]), visits[|visits| - 1];
      Growth(m, visits[..|visits| - 1]) +
      if v.scan.Counted? && v.pid in before && v.scan.count > before[v.pid]
      then [Alert(v.pid, before[v.pid], v.scan.count)] else []
  }

  lemma {:induction false} SeenIsListed(m: map<Pid, nat>, visits: seq<Visit>, list: seq<Pid>)
    requires m.Keys <= Elements(list) && forall i :: 0 <= i < |visits| ==> visits[i].pid in list
    ensures Seen(m, visits).Keys <= Elements(list)
  {
    if visits != [] {
      SeenIsListed(m, visits[..|visits| - 1], list);
    }
  }

  /** One pass of scan_protected_periodic(). A list no longer than the table never runs it out of slots. */
  method ScanProtectedPeriodic(t: Table, visits: seq<Visit>) returns (alerts: seq<Alert>)
    requires t.Valid() && |visits| <= t.slots.Length
    modifies t.slots
    ensures t.Valid()
    ensures t.Abstract() == Seen(Restrict(old(t.Abstract()), Pids(visits)), visits)
    ensures alerts == Growth(Restrict(old(t.Abstract()), Pids(visits)), visits)
  {
    hide Entries, Distinct, Restrict;
    ghost var list := Pids(visits);
    var pids := seq(|visits|, i requires 0 <= i < |visits| => visits[i].pid);
    t.ForgetStale(pids);
    ghost var m := t.Abstract();
    RestrictIsListed(old(t.Abstract()), list);
    alerts := [];
    for i := 0 to |visits|
      invariant t.Valid() && t.Abstract() == Seen(m, visits[..i]) && alerts == Growth(m, visits[..i])
    {
      var v := visits[i];
      assert visits[..i + 1][..i] == visits[..i];
      if v.scan.Counted? {
        assert forall k :: 0 <= k < i ==> visits[..i][k].pid == list[k];
        SeenIsListed(m, visits[..i], list);
        assert v.pid == list[i];
        if v.pid !in t.Abstract() {
          RoomForListed(t.Abstract(), list, v.pid);
        }
        var grew, was := t.Check(v.pid, v.scan.count);
        if grew {
          alerts := alerts + [Alert(v.pid, was, v.scan.count)];
        }
      }
    }
    assert visits[..|visits|] == visits;
  }

  lemma RestrictIsListed(m: map<Pid, nat>, list: seq<Pid>)
    ensures Restrict(m, list).Keys <= Elements(list)
  {
  }

  // ---- the growth alert over a run of cycles ----

  /** What the baseline lives through: a new list of protected pids, or a successful scan. */
  datatype Event = Listing(pids: seq<Pid>) | Scanned(pid: Pid, count: nat)

  ghost function Kept(events: seq<Event>): map<Pid, nat> {
    if events == [] then map[] else
      var before := Kept(events[..|events| - 1]);
      match events[|events| - 1]
      case Listing(pids) => Restrict(before, pids)
      case Scanned(pid, count) => before[pid := count]
  }

  /** Event k is the last successful scan of pid, which has been listed ever since. */
  ghost predicate Previous(events: seq<Event>, pid: Pid, count: nat, k: nat) {
    && k < |events| && events[k] == Scanned(pid, count)
    && forall j :: k < j < |events| ==>
         (events[j].Scanned? ==> events[j].pid != pid) && (events[j].Listing? ==> pid in events[j].pids)
  }

  lemma {:induction false} PreviousIsKept(events: seq<Event>, pid: Pid, count: nat, k: nat)
    requires Previous(events, pid, count, k)
    ensures pid in Kept(events) && Kept(events)[pid] == count
  {
    if k < |events| - 1 {
      assert Previous(events[..|events| - 1], pid, count, k);
      PreviousIsKept(events[..|events| - 1], pid, count, k);
    }
  }

  lemma {:induction false} KeptIsPrevious(events: seq<Event>, pid: Pid) returns (k: nat)
    requires pid in Kept(events)
    ensures Previous(events, pid, Kept(events)[pid], k)
  {
    var n := |events| - 1;
    if events[n].Scanned? && events[n].pid == pid {
      k := n;
    } else {
      k := KeptIsPrevious(events[..n], pid);
      assert forall j :: k <= j < n ==> events[..n][j] == events[j];
    }
  }

  ghost function ScanEvents(visits: seq<Visit>): seq<Event> {
    if visits == [] then [] else
      var v := visits[|visits| - 1];
      ScanEvents(visits[..|visits| - 1]) + if v.scan.Counted? then [Scanned(v.pid, v.scan.count)] else []
  }

  ghost function RunEvents(cycles: seq<seq<Visit>>): seq<Event> {
    if cycles == [] then [] else
      var c := cycles[|cycles| - 1];
      RunEvents(cycles[..|cycles| - 1]) + [Listing(Pids(c))] + ScanEvents(c)
  }

  /** The table after a run of cycles, each one pass of ScanProtectedPeriodic. */
  ghost function AfterCycles(cycles: seq<seq<Visit>>): map<Pid, nat> {
    if cycles == [] then map[] else
      var c := cycles[|cycles| - 1];
      Seen(Restrict(AfterCycles(cycles[..|cycles| - 1]), Pids(c)), c)
  }

  lemma {:induction false} SeenIsKept(events: seq<Event>, list: seq<Pid>, visits: seq<Visit>)
    ensures Seen(Restrict(Kept(events), list), visits) == Kept(events + [Listing(list)] + ScanEvents(visits))
  {
    hide Restrict;
    var so := events + [Listing(list)];
    assert so[..|so| - 1] == events;
    if visits == [] {
      assert so + ScanEvents(visits) == so;
    } else {
      var n := |visits| - 1;
      SeenIsKept(events, list, visits[..n]);
      if visits[n].scan.Counted? {
        var all := so + ScanEvents(visits);
        assert all[..|all| - 1] == so + ScanEvents(visits[..n]);
      } else {
        assert ScanEvents(visits) == ScanEvents(visits[..n]);
      }
    }
  }

  lemma {:induction false} CyclesAreKept(cycles: seq<seq<Visit>>)
    ensures AfterCycles(cycles) == Kept(RunEvents(cycles))
  {
    if cycles != [] {
      CyclesAreKept(cycles[..|cycles| - 1]);
      SeenIsKept(RunEvents(cycles[..|cycles| - 1]), Pids(cycles[|cycles| - 1]), cycles[|cycles| - 1]);
    }
  }

  /** After any cycles, visit i of the next one raises an alert if and only if its count exceeds that of the pid's
      previous successful scan, made while the pid has been listed without a break; the alert names the pid, that count
      and the new one. */
  lemma AlertMeansGrowth(cycles: seq<seq<Visit>>, visits: seq<Visit>, i: nat)
    requires i < |visits|
    ensures var m := Restrict(AfterCycles(cycles), Pids(visits));
            var past := RunEvents(cycles) + [Listing(Pids(visits))] + ScanEvents(visits[..i]);
            var v, before, after := visits[i], Growth(m, visits[..i]), Growth(m, visits[..i + 1]);
            && (|after| > |before| <==>
                  && v.scan.Counted?
                  && exists count: nat, k: nat :: Previous(past, v.pid, count, k) && v.scan.count > count)
            && (|after| <= |before| ==> after == before)
            && (|after| > |before| ==>
                  forall count: nat, k: nat :: Previous(past, v.pid, count, k) ==>
                    after == before + [Alert(v.pid, count, v.scan.count)])
  {
    hide Restrict;
    var m := Restrict(AfterCycles(cycles), Pids(visits));
    var past := RunEvents(cycles) + [Listing(Pids(visits))] + ScanEvents(visits[..i]);
    var pid := visits[i].pid;
    CyclesAreKept(cycles);
    SeenIsKept(RunEvents(cycles), Pids(visits), visits[..i]);
    assert visits[..i + 1][..i] == visits[..i];
    if pid in Kept(past) {
      var k := KeptIsPrevious(past, pid);
    }
    forall count: nat, k: nat | Previous(past, pid, count, k)
      ensures pid in Kept(past) && Kept(past)[pid] == count
    {
      PreviousIsKept(past, pid, count, k);
    }
  }

  // ---- warning once per process ----

  /** One listed process in a cycle, and whether the variable is set in its environment. */
  datatype Look = Look(pid: Pid, isSet: bool)

  ghost function LookPids(looks: seq<Look>): seq<Pid> {
    seq(|looks|, i requires 0 <= i < |looks| => looks[i].pid)
  }

  ghost function Warned(m: map<Pid, nat>, looks: seq<Look>): map<Pid, nat> {
    if looks == [] then m else
      var before, l := Warned(m, looks[..|looks| - 1]), looks[|looks| - 1];
      if l.pid !in before && l.isSet then before[l.pid := 0] else before
  }

  ghost function Warnings(m: map<Pid, nat>, looks: seq<Look>): seq<Pid> {
    if looks == [] then [] else
      var before, l := Warned(m, looks[..|looks| - 1]), looks[|looks| - 1];
      Warnings(m, looks[..|looks| - 1]) + if l.pid !in before && l.isSet then [l.pid] else []
  }

  lemma {:induction false} WarnedIsListed(m: map<Pid, nat>, looks: seq<Look>, list: seq<Pid>)
    requires m.Keys <= Elements(list) && forall i :: 0 <= i < |looks| ==> looks[i].pid in list
    ensures Warned(m, looks).Keys <= Elements(list)
  {
    if looks != [] {
      WarnedIsListed(m, looks[..|looks| - 1], list);
    }
  }

  /** One pass of check_ld_preload_periodic(). */
  method CheckLdPreloadPeriodic(t: Table, looks: seq<Look>) returns (warnings: seq<Pid>)
    requires t.Valid() && |looks| <= t.slots.Length
    modifies t.slots
    ensures t.Valid()
    ensures t.Abstract() == Warned(Restrict(old(t.Abstract()), LookPids(looks)), looks)
    ensures warnings == Warnings(Restrict(old(t.Abstract()), LookPids(looks)), looks)
  {
    hide Entries, Distinct, Restrict;
    ghost var list := LookPids(looks);
    var pids := seq(|looks|, i requires 0 <= i < |looks| => looks[i].pid);
    t.ForgetStale(pids);
    ghost var m := t.Abstract();
    RestrictIsListed(old(t.Abstract()), list);
    warnings := [];
    for i := 0 to |looks|
      invariant t.Valid() && t.Abstract() == Warned(m, looks[..i]) && warnings == Warnings(m, looks[..i])
    {
      var l := looks[i];
      assert looks[..i + 1][..i] == looks[..i];
      var already := t.Contains(l.pid);
      if !already && l.isSet {
        assert forall k :: 0 <= k < i ==> looks[..i][k].pid == list[k];
        WarnedIsListed(m, looks[..i], list);
        assert l.pid == list[i];
        RoomForListed(t.Abstract(), list, l.pid);
        warnings := warnings + [l.pid];
        t.MarkWarned(l.pid);
      }
    }
    assert looks[..|looks|] == looks;
  }

  ghost function WarnedAfter(cycles: seq<seq<Look>>): map<Pid, nat> {
    if cycles == [] then map[] else
      var c := cycles[|cycles| - 1];
      Warned(Restrict(WarnedAfter(cycles[..|cycles| - 1]), LookPids(c)), c)
  }

  ghost function AllWarnings(cycles: seq<seq<Look>>): seq<Pid> {
    if cycles == [] then [] else
      var c := cycles[|cycles| - 1];
      AllWarnings(cycles[..|cycles| - 1]) + Warnings(Restrict(WarnedAfter(cycles[..|cycles| - 1]), LookPids(c)), c)
  }

  ghost predicate IsSetIn(looks: seq<Look>, pid: Pid) {
    Look(pid, true) in looks
  }

  ghost function Count(s: seq<Pid>, pid: Pid): nat {
    if s == [] then 0 else Count(s[..|s| - 1], pid) + if s[|s| - 1] == pid then 1 else 0
  }

  lemma {:induction false} CountConcat(a: seq<Pid>, b: seq<Pid>, pid: Pid)
    ensures Count(a + b, pid) == Count(a, pid) + Count(b, pid)
  {
    if b == [] {
      assert a + b == a;
    } else {
      CountConcat(a, b[..|b| - 1], pid);
      assert (a + b)[..|a + b| - 1] == a + b[..|b| - 1];
    }
  }

  lemma {:induction false} WarningsInCycle(m: map<Pid, nat>, looks: seq<Look>, pid: Pid)
    ensures pid in Warned(m, looks) <==> pid in m || IsSetIn(looks, pid)
    ensures Count(Warnings(m, looks), pid) == if pid !in m && IsSetIn(looks, pid) then 1 else 0
  {
    if looks != [] {
      var n := |looks| - 1;
      WarningsInCycle(m, looks[..n], pid);
      var before, l := Warned(m, looks[..n]), looks[n];
      CountConcat(Warnings(m, looks[..n]), if l.pid !in before && l.isSet then [l.pid] else [], pid);
      assert looks == looks[..n] + [looks[n]];
    }
  }

  /** A pid listed in every cycle is warned about exactly once if its variable is ever seen set, and never
      otherwise, however many cycles there are. */
  lemma {:induction false} WarnedExactlyOnce(cycles: seq<seq<Look>>, pid: Pid)
    requires forall c :: 0 <= c < |cycles| ==> pid in LookPids(cycles[c])
    ensures var ever := exists c :: 0 <= c < |cycles| && IsSetIn(cycles[c], pid);
            && Count(AllWarnings(cycles), pid) == (if ever then 1 else 0)
            && (pid in WarnedAfter(cycles) <==> ever)
  {
    if cycles != [] {
      var n := |cycles| - 1;
      WarnedExactlyOnce(cycles[..n], pid);
      var m := Restrict(WarnedAfter(cycles[..n]), LookPids(cycles[n]));
      WarningsInCycle(m, cycles[n], pid);
      CountConcat(AllWarnings(cycles[..n]), Warnings(m, cycles[n]), pid);
      assert forall c :: 0 <= c < n ==> cycles[..n][c] == cycles[c];
    }
  }
}
