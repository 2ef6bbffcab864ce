/** The BEGIN/GET/END snapshot protocol of one open device file, from src/anticheat_module.c. */
module Snapshot {
  import opened Common
  import opened Sets

  const MAX_VMAS: nat := 4096
  const MAX_MODS: nat := 1024
  const VM_WRITE: nat := 0x2
  const VM_EXEC: nat := 0x4
  const PAGE_SIZE: nat := 4096
  const VMA_PATH: nat := 128
  const MOD_NAME_LEN: nat := 64

  // ---- what the kernel shows ----

  /** A mapped file; None where it has no inode or its path cannot be had. */
  datatype File = File(inode: Option<nat>, path: Option<string>)

  type Flags = f: nat | f < TWO_64

  datatype Area = Area(start: nat, end: nat, pgoff: nat, flags: Flags, file: Option<File>)

  datatype Module = Module(name: string, size: nat, live: bool, textBase: nat, textSize: nat)

  datatype Target = NoTask | NoMemory | Space(areas: seq<Area>)

  // ---- what the caller sees ----

  datatype VmaInfo = VmaInfo(start: nat, end: nat, offset: nat, inode: nat, flags: nat, isFile: bool, path: string)

  datatype ModInfo = ModInfo(name: string, size: nat)

  datatype Summary = Summary(vmas: nat, rwx: nat, exec: nat, anonExec: nat, truncated: bool)

  datatype Alert = RwxMapping(start: nat, end: nat, name: string) | AnonymousExec(start: nat, end: nat)

  datatype Code = Ok | Fault | Invalid | NoSuchTask | OutOfMemory

  predicate Has(flags: nat, bit: nat)
    requires bit > 0
  {
    flags / bit % 2 == 1
  }

  predicate IsExec(a: Area) { Has(a.flags, VM_EXEC) }

  predicate IsRwx(a: Area) { Has(a.flags, VM_EXEC) && Has(a.flags, VM_WRITE) }

  predicate IsAnonExec(a: Area) { a.file.None? && Has(a.flags, VM_EXEC) }

  predicate IsSane(m: Module) { m.live && m.textBase != 0 && 0 < m.textSize <= 0x4000_0000 }

  function PathOf(a: Area): string {
    if a.file.Some? && a.file.value.path.Some? then Truncated(a.file.value.path.value, VMA_PATH) else ""
  }

  function Info(a: Area): VmaInfo {
    VmaInfo(a.start, a.end, a.pgoff * PAGE_SIZE % TWO_64,
            if a.file.Some? then a.file.value.inode.GetOr(0) else 0, a.flags,
            a.file.Some?, PathOf(a))
  }

  function Shown(path: string): string {
    if path == "" then "(anonymous)" else path
  }

  function Alerts(a: Area): seq<Alert> {
    (if IsRwx(a) then [RwxMapping(a.start, a.end, Shown(PathOf(a)))] else [])
    + if IsAnonExec(a) then [AnonymousExec(a.start, a.end)] else []
  }

  ghost function Map<T, U>(f: T -> U, s: seq<T>): (r: seq<U>)
    ensures |r| == |s|
    ensures forall i :: 0 <= i < |s| ==> r[i] == f(s[i])
  {
    seq(|s|, i requires 0 <= i < |s| => f(s[i]))
  }

  ghost function Filter<T>(p: T -> bool, s: seq<T>): seq<T> {
    if s == [] then [] else Filter(p, s[..|s| - 1]) + if p(s[|s| - 1]) then [s[|s| - 1]] else []
  }

  ghost function Flatten<T, U>(f: T -> seq<U>, s: seq<T>): seq<U> {
    if s == [] then [] else Flatten(f, s[..|s| - 1]) + f(s[|s| - 1])
  }

  lemma Extend(s: seq<Area>, n: nat)
    requires n < |s|
    ensures |Filter(IsRwx, s[..n + 1])| == |Filter(IsRwx, s[..n])| + if IsRwx(s[n]) then 1 else 0
    ensures |Filter(IsExec, s[..n + 1])| == |Filter(IsExec, s[..n])| + if IsExec(s[n]) then 1 else 0
    ensures |Filter(IsAnonExec, s[..n + 1])| == |Filter(IsAnonExec, s[..n])| + if IsAnonExec(s[n]) then 1 else 0
    ensures Flatten(Alerts, s[..n + 1]) == Flatten(Alerts, s[..n]) + Alerts(s[n])
  {
    hide IsRwx, IsExec, IsAnonExec, Alerts;
    assert s[..n + 1][..n] == s[..n];
  }

  lemma Nothing(s: seq<Area>)
    ensures Filter(IsRwx, s[..0]) == Filter(IsExec, s[..0]) == Filter(IsAnonExec, s[..0]) == []
    ensures Flatten(Alerts, s[..0]) == []
  {
  }

  /** What a scan of these areas captures and reports. */
  ghost function Captured(areas: seq<Area>): seq<VmaInfo> {
    Map(Info, Take(areas, MAX_VMAS))
  }

  ghost function Counted(areas: seq<Area>): Summary {
    var seen := Take(areas, MAX_VMAS);
    Summary(|seen|, |Filter(IsRwx, seen)|, |Filter(IsExec, seen)|, |Filter(IsAnonExec, seen)|, |areas| > MAX_VMAS)
  }

  ghost function CapturedMods(mods: seq<Module>): seq<ModInfo> {
    Map(Brief, Take(Filter(IsSane, mods), MAX_MODS))
  }

  class Session {
    var vmas: array?<VmaInfo>
    var nVmas: nat
    var rwx: nat
    var exec: nat
    var anonExec: nat
    var truncated: bool
    var mods: array?<ModInfo>
    var nMods: nat

    ghost predicate Valid()
      reads this
    {
      && nVmas <= (if vmas == null then 0 else vmas.Length) && (vmas != null ==> vmas.Length == MAX_VMAS)
      && nMods <= (if mods == null then 0 else mods.Length) && (mods != null ==> mods.Length == MAX_MODS)
    }

    ghost function Scan(): Option<seq<VmaInfo>>
      requires Valid()
      reads this, vmas
    {
      if vmas == null then None else Some(vmas[..nVmas])
    }

    ghost function Mods(): Option<seq<ModInfo>>
      requires Valid()
      reads this, mods
    {
      if mods == null then None else Some(mods[..nMods])
    }

    constructor ()
      ensures Valid() && Scan() == None && Mods() == None
    {
      vmas, nVmas, mods, nMods := null, 0, null, 0;
      rwx, exec, anonExec, truncated := 0, 0, 0, false;
    }

    /** The loop over the address space. */
    method Walk(a: array<VmaInfo>, areas: seq<Area>, emit: bool) returns (n: nat, alerts: seq<Alert>)
      requires a.Length == MAX_VMAS && rwx == exec == anonExec == 0 && !truncated
      modifies this`rwx, this`exec, this`anonExec, this`truncated, a
      ensures n <= MAX_VMAS && a[..n] == Captured(areas)
      ensures Summary(n, rwx, exec, anonExec, truncated) == Counted(areas)
      ensures alerts == if emit then Flatten(Alerts, Take(areas, MAX_VMAS)) else []
    {
      hide Filter, Flatten, Info, PathOf, Shown, IsRwx, IsExec, IsAnonExec;
      alerts := [];
      n := 0;
      Nothing(areas);
      while n < |areas|
        invariant n <= |areas| && n <= MAX_VMAS && !truncated
        invariant forall k :: 0 <= k < n ==> a[k] == Info(areas[k])
        invariant rwx == |Filter(IsRwx, areas[..n])| && exec == |Filter(IsExec, areas[..n])|
        invariant anonExec == |Filter(IsAnonExec, areas[..n])|
        invariant alerts == if emit then Flatten(Alerts, areas[..n]) else []
      {
        if n >= MAX_VMAS {
          truncated := true;
          break;
        }
        var area := areas[n];
        Extend(areas, n);
        a[n] := Info(area);
        if IsRwx(area) {
          rwx := rwx + 1;
          if emit { alerts := alerts + [RwxMapping(area.start, area.end, Shown(PathOf(area)))]; }
        }
        if IsAnonExec(area) {
          anonExec := anonExec + 1;
          if emit { alerts := alerts + [AnonymousExec(area.start, area.end)]; }
        }
        if IsExec(area) {
          exec := exec + 1;
        }
        n := n + 1;
      }
      assert areas[..n] == Take(areas, MAX_VMAS);
      assert a[..n] == Map(Info, areas[..n]);
    }

    method BuildVmaSnapshot(target: Target, allocOk: bool, emit: bool) returns (ret: Code, alerts: seq<Alert>)
      requires Valid()
      modifies this`vmas, this`nVmas, this`rwx, this`exec, this`anonExec, this`truncated
      ensures Valid() && (vmas != null ==> fresh(vmas))
      ensures ret == if !target.Space? then NoSuchTask else if !allocOk then OutOfMemory else Ok
      ensures ret == Ok ==>
                && Scan() == Some(Captured(target.areas))
                && Summary(nVmas, rwx, exec, anonExec, truncated) == Counted(target.areas)
      ensures ret != Ok ==> Scan() == None && nVmas == 0
      ensures alerts == if ret == Ok && emit then Flatten(Alerts, Take(target.areas, MAX_VMAS)) else []
    {
      hide Flatten, Captured, Counted;
      vmas := null;
      nVmas, rwx, exec, anonExec, truncated := 0, 0, 0, 0, false;
      if !target.Space? {
        return NoSuchTask, [];
      }
      if !allocOk {
        return OutOfMemory, [];
      }
      vmas := new VmaInfo[MAX_VMAS](_ => VmaInfo(0, 0, 0, 0, 0, false, ""));
      nVmas, alerts := Walk(vmas, target.areas, emit);
      ret := Ok;
    }

    method BuildModSnapshot(list: seq<Module>, allocOk: bool) returns (ret: Code)
      requires Valid()
      modifies this`mods, this`nMods
      ensures Valid() && (mods != null ==> fresh(mods))
      ensures ret == if allocOk then Ok else OutOfMemory
      ensures Mods() == if allocOk then Some(CapturedMods(list)) else None
    {
      hide IsSane, Brief;
      mods, nMods := null, 0;
      if !allocOk {
        return OutOfMemory;
      }
      var a := new ModInfo[MAX_MODS](_ => ModInfo("", 0));
      var n := 0;
      var i := 0;
      while i < |list|
        invariant i <= |list| && n == |Filter(IsSane, list[..i])| <= MAX_MODS
        invariant forall k :: 0 <= k < n ==> a[k] == Brief(Filter(IsSane, list[..i])[k])
      {
        assert list[..i + 1][..i] == list[..i];
        if IsSane(list[i]) {
          if n >= MAX_MODS {
            break;
          }
          a[n] := Brief(list[i]);
          n := n + 1;
        }
        i := i + 1;
      }
      FilterPrefix(IsSane, list, i);
      mods, nMods := a, n;
      assert Filter(IsSane, list[..i]) == Take(Filter(IsSane, list), MAX_MODS) by {
        assert i == |list| ==> list[..i] == list;
      }
      assert a[..n] == CapturedMods(list);
      ret := Ok;
    }

    // ---- the ioctl cases ----

    method ScanBegin(copyIn: bool, state: bool, target: Target, allocOk: bool, emit: bool, copyOut: bool)
      returns (ret: Code, out: Summary, alerts: seq<Alert>)
      requires Valid()
      modifies this`vmas, this`nVmas, this`rwx, this`exec, this`anonExec, this`truncated
      ensures Valid() && Scan() == Next(old(Scan()), ScanCall(copyIn, state, target, allocOk))
      ensures Scan() == if !copyIn || !state then old(Scan())
                        else if target.Space? && allocOk then Some(Captured(target.areas)) else None
      ensures ret == if !copyIn then Fault else if !state then OutOfMemory else if !target.Space? then NoSuchTask
                     else if !allocOk then OutOfMemory else if !copyOut then Fault else Ok
      ensures ret == Ok ==> out == Counted(target.areas)
      ensures alerts == if copyIn && state && target.Space? && allocOk && emit
                        then Flatten(Alerts, Take(target.areas, MAX_VMAS)) else []
    {
      hide Captured, Counted, Flatten;
      out := Summary(0, 0, 0, 0, false);
      if !copyIn {
        return Fault, out, [];
      }
      if !state {
        return OutOfMemory, out, [];
      }
      ret, alerts := BuildVmaSnapshot(target, allocOk, emit);
      if ret != Ok {
        return;
      }
      out := Summary(nVmas, rwx, exec, anonExec, truncated);
      if !copyOut {
        ret := Fault;
      }
    }

    method ScanGet(copyIn: bool, index: nat, copyOut: bool) returns (ret: Code, vma: Option<VmaInfo>)
      requires Valid()
      ensures ret == if !copyIn then Fault else if Element(Scan(), index).None? then Invalid
                     else if !copyOut then Fault else Ok
      ensures ret == Ok ==> vma == Element(Scan(), index)
    {
      vma := None;
      if !copyIn {
        return Fault, None;
      }
      if index >= nVmas {
        return Invalid, None;
      }
      vma := Some(vmas[index]);
      ret := if copyOut then Ok else Fault;
    }

    method ScanEnd()
      requires Valid()
      modifies this`vmas, this`nVmas
      ensures Valid() && Scan() == Next(old(Scan()), End)
    {
      vmas, nVmas := null, 0;
    }

    method ModsBegin(state: bool, list: seq<Module>, allocOk: bool, copyOut: bool) returns (ret: Code, count: nat)
      requires Valid()
      modifies this`mods, this`nMods
      ensures Valid() && Mods() == Next(old(Mods()), ModsCall(state, list, allocOk))
      ensures Mods() == if !state then old(Mods()) else if allocOk then Some(CapturedMods(list)) else None
      ensures ret == if !state || !allocOk then OutOfMemory else if !copyOut then Fault else Ok
      ensures ret == Ok ==> count == |CapturedMods(list)|
    {
      hide CapturedMods;
      count := 0;
      if !state {
        return OutOfMemory, 0;
      }
      ret := BuildModSnapshot(list, allocOk);
      if ret == Ok {
        count := nMods;
        ret := if copyOut then Ok else Fault;
      }
    }

    method ModsGet(copyIn: bool, index: nat, copyOut: bool) returns (ret: Code, mod: Option<ModInfo>)
      requires Valid()
      ensures ret == if !copyIn then Fault else if Element(Mods(), index).None? then Invalid
                     else if !copyOut then Fault else Ok
      ensures ret == Ok ==> mod == Element(Mods(), index)
    {
      mod := None;
      if !copyIn {
        return Fault, None;
      }
      if index >= nMods {
        return Invalid, None;
      }
      mod := Some(mods[index]);
      ret := if copyOut then Ok else Fault;
    }

    method ModsEnd()
      requires Valid()
      modifies this`mods, this`nMods
      ensures Valid() && Mods() == Next(old(Mods()), End)
    {
      mods, nMods := null, 0;
    }
  }

  function Brief(m: Module): ModInfo {
    ModInfo(Truncated(m.name, MOD_NAME_LEN), m.size)
  }

  lemma {:induction false} FilterPrefix<T>(p: T -> bool, s: seq<T>, i: nat)
    requires i <= |s|
    ensures Filter(p, s[..i]) <= Filter(p, s)
  {
    if i < |s| {
      FilterPrefix(p, s[..|s| - 1], i);
      assert s[..|s| - 1][..i] == s[..i];
    } else {
      assert s[..i] == s;
    }
  }

  // ---- runs of calls on one file ----

  /** What a call does to one of the file's two snapshots. A BEGIN that got as far as building has captured
      something or failed; one that did not get there, and every other call, leaves the snapshot alone. */
  datatype Call<T> = Begin(building: bool, captured: Option<seq<T>>) | End | OtherCall

  ghost function ScanCall(copyIn: bool, state: bool, target: Target, allocOk: bool): Call<VmaInfo> {
    Begin(copyIn && state, if target.Space? && allocOk then Some(Captured(target.areas)) else None)
  }

  ghost function ModsCall(state: bool, list: seq<Module>, allocOk: bool): Call<ModInfo> {
    Begin(state, if allocOk then Some(CapturedMods(list)) else None)
  }

  function Element<T>(s: Option<seq<T>>, index: nat): Option<T> {
    if s.Some? && index < |s.value| then Some(s.value[index]) else None
  }

  function Next<T>(snapshot: Option<seq<T>>, c: Call<T>): Option<seq<T>> {
    match c
    case Begin(building, captured) => if building then captured else snapshot
    case End => None
    case OtherCall => snapshot
  }

  ghost function After<T>(calls: seq<Call<T>>): Option<seq<T>> {
    if calls == [] then None else Next(After(calls[..|calls| - 1]), calls[|calls| - 1])
  }

  predicate Touches<T>(c: Call<T>) {
    c.End? || (c.Begin? && c.building)
  }

  predicate Captures<T>(c: Call<T>) {
    c.Begin? && c.building && c.captured.Some?
  }

  /** Call k captured the snapshot that is current after the calls. */
  ghost predicate Current<T>(calls: seq<Call<T>>, k: nat) {
    && k < |calls| && Captures(calls[k])
    && forall j :: k < j < |calls| ==> !Touches(calls[j])
  }

  lemma {:induction false} CurrentIsVisible<T>(calls: seq<Call<T>>, k: nat)
    requires Current(calls, k)
    ensures After(calls) == calls[k].captured
  {
    if k < |calls| - 1 {
      assert Current(calls[..|calls| - 1], k);
      CurrentIsVisible(calls[..|calls| - 1], k);
    }
  }

  lemma {:induction false} VisibleIsCurrent<T>(calls: seq<Call<T>>) returns (k: nat)
    requires After(calls).Some?
    ensures Current(calls, k)
  {
    var n := |calls| - 1;
    if Touches(calls[n]) {
      k := n;
    } else {
      k := VisibleIsCurrent(calls[..n]);
      assert calls[..n][k] == calls[k];
    }
  }

  /** After any calls, failed BEGINs included, GET returns v at index i if and only if the last call that
      touched the snapshot captured one whose element i is v. */
  lemma {:induction false} GetReadsTheLatestSnapshot<T>(calls: seq<Call<T>>, i: nat, v: T)
    ensures Element(After(calls), i) == Some(v) <==>
            exists k: nat :: Current(calls, k) && Element(calls[k].captured, i) == Some(v)
  {
    if After(calls).Some? {
      var k := VisibleIsCurrent(calls);
      CurrentIsVisible(calls, k);
      assert forall k': nat :: Current(calls, k') ==> k' == k;
    } else if k: nat :| Current(calls, k) {
      CurrentIsVisible(calls, k);
    }
  }

  // ---- what the counts, alerts and captured fields mean ----

  ghost function Bits(a: Area): bv64 {
    a.flags as bv64
  }

  /** The three tests, on the flags as bits: 2 for write and 4 for execute. */
  lemma TestsMean(a: Area)
    ensures IsRwx(a) <==> Bits(a) & 6 == 6
    ensures IsExec(a) <==> Bits(a) & 4 != 0
    ensures IsAnonExec(a) <==> a.file == None && Bits(a) & 4 != 0
  {
  }

  /** The places, below n, of the elements that satisfy a test. */
  ghost function Places<T>(s: seq<T>, n: nat, p: T -> bool): set<nat> {
    set i: nat | i < |s| && i < n && p(s[i])
  }

  lemma {:induction false} FilterSize<T>(p: T -> bool, s: seq<T>)
    ensures |Filter(p, s)| == |Places(s, |s|, p)|
  {
    if s == [] {
      assert Places(s, |s|, p) == {};
    } else {
      var n := |s| - 1;
      FilterSize(p, s[..n]);
      var before := Places(s[..n], n, p);
      assert Places(s, |s|, p) == if p(s[n]) then before + {n} else before;
    }
  }

  lemma FirstOf<T>(p: T -> bool, s: seq<T>, n: nat)
    ensures |Filter(p, Take(s, n))| == |Places(s, n, p)|
  {
    FilterSize(p, Take(s, n));
    assert Places(Take(s, n), |Take(s, n)|, p) == Places(s, n, p);
  }

  /** Counting by a test that says the same. */
  lemma CountedBy(areas: seq<Area>, p: Area -> bool, q: Area -> bool)
    requires forall a :: a in areas ==> (p(a) <==> q(a))
    ensures |Filter(p, Take(areas, MAX_VMAS))| == |Places(areas, 4096, q)|
  {
    FirstOf(p, areas, 4096);
    assert Places(areas, 4096, p) == Places(areas, 4096, q);
  }

  /** What SCAN_BEGIN counts, by the flags of the first 4096 areas: writable and executable ones, executable ones and
      executable ones without a file. The first and the last are among the second. */
  lemma CountsMean(areas: seq<Area>)
    ensures var c := Counted(areas);
            && c.vmas == (if |areas| < 4096 then |areas| else 4096) && (c.truncated <==> |areas| > 4096)
            && c.rwx == |Places(areas, 4096, (a: Area) => Bits(a) & 6 == 6)|
            && c.exec == |Places(areas, 4096, (a: Area) => Bits(a) & 4 != 0)|
            && c.anonExec == |Places(areas, 4096, (a: Area) => a.file == None && Bits(a) & 4 != 0)|
            && c.rwx <= c.exec && c.anonExec <= c.exec
  {
    hide IsRwx, IsExec, IsAnonExec, Filter, Bits;
    forall a | a in areas
      ensures IsRwx(a) <==> Bits(a) & 6 == 6
      ensures IsExec(a) <==> Bits(a) & 4 != 0
      ensures IsAnonExec(a) <==> a.file == None && Bits(a) & 4 != 0
      ensures Bits(a) & 6 == 6 ==> Bits(a) & 4 != 0
    {
      TestsMean(a);
      BothMeansExec(Bits(a));
    }
    CountedBy(areas, IsRwx, (a: Area) => Bits(a) & 6 == 6);
    CountedBy(areas, IsExec, (a: Area) => Bits(a) & 4 != 0);
    CountedBy(areas, IsAnonExec, (a: Area) => a.file == None && Bits(a) & 4 != 0);
    FirstOf(IsRwx, areas, 4096);
    FirstOf(IsExec, areas, 4096);
    FirstOf(IsAnonExec, areas, 4096);
    SubsetSize(Places(areas, 4096, IsRwx), Places(areas, 4096, IsExec));
    SubsetSize(Places(areas, 4096, IsAnonExec), Places(areas, 4096, IsExec));
  }

  lemma BothMeansExec(b: bv64)
    ensures b & 6 == 6 ==> b & 4 != 0
  {
  }

  /** An entry says about its area where it starts and ends, its flags, its byte offset, a 64-bit number, whether it has
      a file and, if so, the file's inode number and the first 127 characters of its path, where these can be had. */
  ghost predicate Describes(v: VmaInfo, a: Area) {
    && v.start == a.start && v.end == a.end && v.flags == a.flags
    && v.offset == 4096 * a.pgoff % 0x1_0000_0000_0000_0000
    && (v.isFile <==> a.file != None)
    && v.inode == (if a.file != None && a.file.value.inode != None then a.file.value.inode.value else 0)
    && v.path == if a.file != None && a.file.value.path != None then First(a.file.value.path.value, 127) else ""
  }

  ghost function First(s: string, n: nat): (r: string)
    ensures r <= s && |r| == Min(n, |s|)
  {
    s[..Min(n, |s|)]
  }

  /** After a scan of some areas, whatever calls came before and as long as no call touched the snapshot since, GET
      answers for the first 4096 areas and no others, and describes the area at the index. */
  lemma GetDescribesTheArea(calls: seq<Call<VmaInfo>>, k: nat, areas: seq<Area>, i: nat)
    requires Current(calls, k) && calls[k] == ScanCall(true, true, Space(areas), true)
    ensures var v := Element(After(calls), i);
            && (v != None <==> i < |areas| && i < 4096)
            && (v != None ==> Describes(v.value, areas[i]))
  {
    CurrentIsVisible(calls, k);
    if i < |areas| {
      InfoDescribes(areas[i]);
    }
  }

  lemma InfoDescribes(a: Area)
    ensures Describes(Info(a), a)
  {
  }

  /** The alerts of a scan are one for each of the first 4096 areas that is writable and executable, with its range and
      path, and one for each that is executable without a file, with its range. */
  lemma AlertsMean(areas: seq<Area>, x: Alert)
    ensures x in Flatten(Alerts, Take(areas, MAX_VMAS)) <==>
            exists i: nat :: i < |areas| && i < 4096 && Warrants(areas[i], x)
  {
    hide Warrants, Alerts;
    var seen := Take(areas, MAX_VMAS);
    InFlatten(Alerts, seen, x);
    forall i: nat | i < |seen|
      ensures x in Alerts(seen[i]) <==> Warrants(areas[i], x)
    {
      AlertIsWarranted(areas[i], x);
    }
    if i: nat :| i < |areas| && i < 4096 && Warrants(areas[i], x) {
      assert x in Alerts(seen[i]);
    }
  }

  ghost predicate Warrants(a: Area, x: Alert) {
    match x
    case RwxMapping(start, end, name) =>
      && Bits(a) & 6 == 6 && start == a.start && end == a.end
      && name == if a.file == None || a.file.value.path == None || a.file.value.path.value == "" then "(anonymous)"
                 else First(a.file.value.path.value, 127)
    case AnonymousExec(start, end) => a.file == None && Bits(a) & 4 != 0 && start == a.start && end == a.end
  }

  lemma AlertIsWarranted(a: Area, x: Alert)
    ensures x in Alerts(a) <==> Warrants(a, x)
  {
    hide IsRwx, IsAnonExec, IsExec, Bits;
    TestsMean(a);
    var rwx := RwxMapping(a.start, a.end, Shown(PathOf(a)));
    var anon := AnonymousExec(a.start, a.end);
    assert Alerts(a) == (if IsRwx(a) then [rwx] else []) + if IsAnonExec(a) then [anon] else [];
    if a.file != None && a.file.value.path != None {
      assert PathOf(a) == First(a.file.value.path.value, 127);
    }
  }

  lemma {:induction false} InFlatten<T, U>(f: T -> seq<U>, s: seq<T>, x: U)
    ensures x in Flatten(f, s) <==> exists i: nat :: i < |s| && x in f(s[i])
  {
    if s != [] {
      var n := |s| - 1;
      InFlatten(f, s[..n], x);
      if i: nat :| i < n && x in f(s[..n][i]) {
        assert x in f(s[i]);
      }
      if i: nat :| i < |s| && x in f(s[i]) {
        assert i < n ==> s[..n][i] == s[i];
      }
    }
  }

  /** A module is worth capturing when it is live and has a text of 1 byte to 1 GiB at some address. */
  ghost predicate HasText(m: Module) {
    m.live && m.textBase > 0 && 1 <= m.textSize <= 1024 * 1024 * 1024
  }

  /** Captured are exactly these modules, each at the place its predecessors leave it, up to 1024. */
  lemma ModulesMean(list: seq<Module>)
    ensures var all := |Places(list, |list|, HasText)|;
            |CapturedMods(list)| == if all < 1024 then all else 1024
    ensures forall i: nat :: i < |list| && HasText(list[i]) && |Places(list, i, HasText)| < 1024 ==>
              IsBrief(CapturedMods(list), |Places(list, i, HasText)|, list[i])
  {
    hide Filter;
    FilterSize(IsSane, list);
    assert Places(list, |list|, IsSane) == Places(list, |list|, HasText);
    forall i: nat | i < |list| && HasText(list[i]) && |Places(list, i, HasText)| < 1024
      ensures IsBrief(CapturedMods(list), |Places(list, i, HasText)|, list[i])
    {
      FirstOf(IsSane, list, i);
      assert Places(list, i, IsSane) == Places(list, i, HasText);
      assert Take(list, i) == list[..i];
      FilterPlace(IsSane, list, i);
    }
  }

  /** The entry at a place has the module's size and the first 63 characters of its name. */
  ghost predicate IsBrief(mods: seq<ModInfo>, place: nat, m: Module) {
    && place < |mods| && mods[place].size == m.size
    && mods[place].name == First(m.name, 63)
  }

  lemma FilterPlace<T>(p: T -> bool, s: seq<T>, i: nat)
    requires i < |s| && p(s[i])
    ensures |Filter(p, s[..i])| < |Filter(p, s)| && Filter(p, s)[|Filter(p, s[..i])|] == s[i]
  {
    FilterPrefix(p, s, i + 1);
    assert s[..i + 1][..i] == s[..i];
  }
}
