/** Finding the system call table, deriving the text bounds from it, and checking it: the first part of
    src/anticheat_module.c. Addresses are 64-bit and wrap. */
module SyscallTable {
  import opened Common

  const MIB_2: nat := 0x20_0000
  const WINDOW: nat := 0x200_0000
  const SPREAD: nat := 0x400_0000
  const ENOUGH: nat := 400

  type Addr = a: nat | a < TWO_64

  /** What the code can observe: the words it can read, which addresses lie in a sane loaded module, and the
      number of system calls. */
  datatype Kernel = Kernel(mem: map<Addr, Addr>, inModule: Addr -> bool, nr: nat)

  /** ac_stext and ac_text_end; 0 means unknown. */
  datatype Bounds = Bounds(stext: Addr, textEnd: Addr)

  function Wrap(n: int): Addr {
    n % TWO_64
  }

  function Entry(k: Kernel, base: Addr, i: nat): Option<Addr> {
    var a := Wrap(base + 8 * i);
    if a in k.mem then Some(k.mem[a]) else None
  }

  predicate Plausible(k: Kernel, anchor: Addr, e: Addr) {
    e != 0 && !k.inModule(e) && Wrap(anchor - SPREAD) < e < Wrap(anchor + SPREAD)
  }

  /** Away from the ends of the address space: less than 64 MiB from the anchor and in no module. */
  lemma PlausibleMeansNear(k: Kernel, anchor: Addr, e: Addr)
    requires SPREAD <= anchor < TWO_64 - SPREAD
    ensures Plausible(k, anchor, e) <==> e != 0 && !k.inModule(e) && anchor < e + SPREAD && e < anchor + SPREAD
  {
  }

  predicate PlausibleAt(k: Kernel, base: Addr, anchor: Addr, i: nat) {
    Entry(k, base, i).Some? && Plausible(k, anchor, Entry(k, base, i).value)
  }

  ghost function CountPlausible(k: Kernel, base: Addr, anchor: Addr, n: nat): (c: nat)
    ensures c <= n
  {
    if n == 0 then 0 else CountPlausible(k, base, anchor, n - 1) + if PlausibleAt(k, base, anchor, n - 1) then 1 else 0
  }

  lemma {:induction false} CountGrows(k: Kernel, base: Addr, anchor: Addr, m: nat, n: nat)
    requires m <= n
    ensures CountPlausible(k, base, anchor, m) <= CountPlausible(k, base, anchor, n)
  {
    if m < n {
      CountGrows(k, base, anchor, m, n - 1);
    }
  }

  method TablePlausible(k: Kernel, base: Addr, anchor: Addr) returns (ok: bool)
    ensures ok <==> CountPlausible(k, base, anchor, k.nr) >= ENOUGH
  {
    var valid := 0;
    for i := 0 to k.nr
      invariant valid == CountPlausible(k, base, anchor, i) < ENOUGH
    {
      var e := Entry(k, base, i);
      if e.Some? && e.value != 0 && Plausible(k, anchor, e.value) {
        valid := valid + 1;
        if valid >= ENOUGH {
          CountGrows(k, base, anchor, i + 1, k.nr);
          return true;
        }
      }
    }
    ok := false;
  }

  // ---- text bounds ----

  function RoundDown(a: Addr): Addr {
    a - a % MIB_2
  }

  function RoundUp(a: Addr): Addr {
    RoundDown(Wrap(a + (MIB_2 - 1)))
  }

  /** Bounds that were unknown, taken from the least and the greatest handler. */
  function Derived(b: Bounds, lo: Addr, hi: Addr): Bounds {
    Bounds(if b.stext == 0 then RoundDown(lo) else b.stext, if b.textEnd == 0 then RoundUp(hi) else b.textEnd)
  }

  /** lo and hi are the least and the greatest plausible entry among the first n. */
  ghost predicate Extremes(k: Kernel, base: Addr, anchor: Addr, n: nat, lo: Addr, hi: Addr) {
    && (exists i :: 0 <= i < n && PlausibleAt(k, base, anchor, i) && Entry(k, base, i) == Some(lo))
    && (exists i :: 0 <= i < n && PlausibleAt(k, base, anchor, i) && Entry(k, base, i) == Some(hi))
    && forall i :: 0 <= i < n && PlausibleAt(k, base, anchor, i) ==> lo <= Entry(k, base, i).value <= hi
  }

  method DeriveBounds(k: Kernel, base: Addr, anchor: Addr, b: Bounds) returns (b': Bounds, lo: Addr, hi: Addr)
    ensures if forall i :: 0 <= i < k.nr ==> !PlausibleAt(k, base, anchor, i) then b' == b && lo == hi == 0
            else Extremes(k, base, anchor, k.nr, lo, hi) && b' == Derived(b, lo, hi)
  {
    lo, hi := 0, 0;
    for i := 0 to k.nr
      invariant lo == 0 <==> hi == 0
      invariant if lo == 0 then forall j :: 0 <= j < i ==> !PlausibleAt(k, base, anchor, j)
                else Extremes(k, base, anchor, i, lo, hi)
    {
      var e := Entry(k, base, i);
      if e.Some? && Plausible(k, anchor, e.value) {
        assert PlausibleAt(k, base, anchor, i);
        if lo == 0 || e.value < lo {
          lo := e.value;
        }
        if e.value > hi {
          hi := e.value;
        }
      }
    }
    b' := b;
    if lo != 0 && hi != 0 {
      if b.stext == 0 {
        b' := b'.(stext := RoundDown(lo));
      }
      if b.textEnd == 0 {
        b' := b'.(textEnd := RoundUp(hi));
      }
    }
  }

  // ---- discovery ----

  /** A table whose first two slots hold the read and write handlers and that is mostly real handlers. */
  ghost predicate Candidate(k: Kernel, rh: Addr, wh: Addr, addr: Addr) {
    && addr in k.mem && k.mem[addr] == rh
    && Entry(k, addr, 1) == Some(wh)
    && CountPlausible(k, addr, rh, k.nr) >= ENOUGH
  }

  method TryAddress(k: Kernel, rh: Addr, wh: Addr, addr: Addr) returns (ok: bool)
    ensures ok <==> Candidate(k, rh, wh, addr)
  {
    if addr !in k.mem || k.mem[addr] != rh {
      return false;
    }
    var v2 := Entry(k, addr, 1);
    if v2.None? || v2.value != wh {
      return false;
    }
    ok := TablePlausible(k, addr, rh);
  }

  /** The addresses the forward and the backward scan try, nearest first. */
  ghost predicate InForward(lo: Addr, a: Addr) {
    lo <= a < Wrap(lo + WINDOW) && (a - lo) % 8 == 0
  }

  ghost predicate InBackward(rh: Addr, a: Addr) {
    Wrap(rh - WINDOW) < a <= rh && (rh - a) % 8 == 0
  }

  method ScanForward(k: Kernel, rh: Addr, wh: Addr, lo: Addr) returns (found: Option<Addr>)
    ensures found.None? ==> forall a: Addr :: InForward(lo, a) ==> !Candidate(k, rh, wh, a)
    ensures found.Some? ==>
              && InForward(lo, found.value) && Candidate(k, rh, wh, found.value)
              && forall a: Addr :: InForward(lo, a) && a < found.value ==> !Candidate(k, rh, wh, a)
  {
    hide Candidate;
    var hi := Wrap(lo + WINDOW);
    var addr: nat := lo;
    while addr < hi
      invariant lo <= addr && (addr - lo) % 8 == 0 && (hi >= lo ==> addr <= hi)
      invariant forall a: Addr :: InForward(lo, a) && a < addr ==> !Candidate(k, rh, wh, a)
      decreases hi - addr
    {
      var ok := TryAddress(k, rh, wh, addr);
      if ok {
        return Some(addr);
      }
      addr := addr + 8;
    }
    found := None;
  }

  method ScanBackward(k: Kernel, rh: Addr, wh: Addr) returns (found: Option<Addr>)
    ensures found.None? ==> forall a: Addr :: InBackward(rh, a) ==> !Candidate(k, rh, wh, a)
    ensures found.Some? ==>
              && InBackward(rh, found.value) && Candidate(k, rh, wh, found.value)
              && forall a: Addr :: InBackward(rh, a) && a > found.value ==> !Candidate(k, rh, wh, a)
  {
    hide Candidate;
    var limit := Wrap(rh - WINDOW);
    var addr: nat := rh;
    while addr > limit
      invariant addr <= rh && (rh - addr) % 8 == 0 && (limit <= rh ==> limit <= addr)
      invariant forall a: Addr :: InBackward(rh, a) && a > addr ==> !Candidate(k, rh, wh, a)
      decreases addr
    {
      var ok := TryAddress(k, rh, wh, addr);
      if ok {
        return Some(addr);
      }
      addr := addr - 8;
    }
    found := None;
  }

  /** ac_resolve_text_bounds(): the bounds before discovery, from the two symbols; 0 where a lookup failed. */
  function Resolved(stext: Addr, etext: Addr): Bounds {
    Bounds(stext, if etext != 0 then etext else if stext != 0 then Wrap(stext + 0x2000_0000) else 0)
  }

  function ScanStart(rh: Addr, etext: Addr, stext: Addr): Addr {
    if etext != 0 then etext else if stext != 0 then stext else rh
  }

  /** The first candidate of the forward window or, with none there, the highest of the backward one. */
  ghost predicate Chosen(k: Kernel, rh: Addr, wh: Addr, start: Addr, base: Addr) {
    && Candidate(k, rh, wh, base)
    && (|| (InForward(start, base) && forall a: Addr :: InForward(start, a) && a < base ==> !Candidate(k, rh, wh, a))
        || (&& InBackward(rh, base)
            && (forall a: Addr :: InForward(start, a) ==> !Candidate(k, rh, wh, a))
            && (forall a: Addr :: InBackward(rh, a) && a > base ==> !Candidate(k, rh, wh, a))))
  }

  /** From these handlers and these initial bounds, discovery finds the table at base, with lo and hi its least and
      greatest plausible handlers, and leaves the bounds b'. */
  ghost predicate Discovers(k: Kernel, rh: Addr, wh: Addr, etext: Addr, b: Bounds,
                            base: Addr, b': Bounds, lo: Addr, hi: Addr)
  {
    && rh != 0 && wh != 0 && Chosen(k, rh, wh, ScanStart(rh, etext, b.stext), base)
    && Extremes(k, base, rh, k.nr, lo, hi) && b' == Derived(b, lo, hi)
  }

  /** Discovery answers 0 if and only if a handler is unknown or neither window holds a candidate. */
  method FindSyscallTable(k: Kernel, rh: Addr, wh: Addr, etext: Addr, b: Bounds)
    returns (base: Addr, b': Bounds, lo: Addr, hi: Addr)
    ensures base == 0 <==>
              || rh == 0 || wh == 0
              || forall a: Addr ::
                   InForward(ScanStart(rh, etext, b.stext), a) || InBackward(rh, a) ==> !Candidate(k, rh, wh, a)
    ensures base == 0 ==> b' == b
    ensures base != 0 ==> Discovers(k, rh, wh, etext, b, base, b', lo, hi)
    ensures rh == 0 || wh == 0 ==> base == 0
    ensures rh != 0 && wh != 0 && etext != 0 ==> Finds(k, rh, wh, etext, base)
    ensures rh != 0 && wh != 0 && etext == 0 && b.stext != 0 ==> Finds(k, rh, wh, b.stext, base)
    ensures rh != 0 && wh != 0 && etext == 0 && b.stext == 0 ==> Finds(k, rh, wh, rh, base)
  {
    hide InForward, InBackward, Extremes, Candidate, Finds;
    b', lo, hi := b, 0, 0;
    if rh == 0 || wh == 0 {
      return 0, b, 0, 0;
    }
    var found := ScanForward(k, rh, wh, ScanStart(rh, etext, b.stext));
    if found.None? {
      found := ScanBackward(k, rh, wh);
    }
    if found.None? {
      NotFoundMeans(k, rh, wh, ScanStart(rh, etext, b.stext));
      return 0, b, 0, 0;
    }
    base := found.value;
    NeverZero(rh, ScanStart(rh, etext, b.stext), base);
    ChosenMeans(k, rh, wh, ScanStart(rh, etext, b.stext), base);
    CandidateIsPlausible(k, rh, wh, base);
    b', lo, hi := DeriveBounds(k, base, rh, b);
  }

  lemma NeverZero(rh: Addr, lo: Addr, a: Addr)
    requires lo != 0 && (InForward(lo, a) || InBackward(rh, a))
    ensures a != 0
  {
  }

  lemma {:induction false} SomePlausible(k: Kernel, base: Addr, anchor: Addr, n: nat)
    requires CountPlausible(k, base, anchor, n) > 0
    ensures exists i :: 0 <= i < n && PlausibleAt(k, base, anchor, i)
  {
    if !PlausibleAt(k, base, anchor, n - 1) {
      SomePlausible(k, base, anchor, n - 1);
    }
  }

  lemma CandidateIsPlausible(k: Kernel, rh: Addr, wh: Addr, base: Addr)
    requires Candidate(k, rh, wh, base)
    ensures exists i :: 0 <= i < k.nr && PlausibleAt(k, base, rh, i)
  {
    hide PlausibleAt;
    SomePlausible(k, base, rh, k.nr);
  }

  // ---- what discovery finds, by addresses and words ----

  /** The word at an address can be read and is a handler: not null, in no module and, in 64-bit arithmetic, less than
      64 MiB from the read handler. */
  ghost predicate HoldsHandler(k: Kernel, rh: Addr, slot: Addr) {
    && slot in k.mem && k.mem[slot] != 0 && !k.inModule(k.mem[slot])
    && (rh - 0x400_0000) % 0x1_0000_0000_0000_0000 < k.mem[slot] < (rh + 0x400_0000) % 0x1_0000_0000_0000_0000
  }

  /** At this address the words of a table begin: the read handler, the write handler and, among as many words as there
      are system calls, at least 400 handlers. */
  ghost predicate IsTable(k: Kernel, rh: Addr, wh: Addr, a: Addr) {
    var next := (a + 8) % 0x1_0000_0000_0000_0000;
    && a in k.mem && k.mem[a] == rh && next in k.mem && k.mem[next] == wh
    && |Handlers(k, rh, a, k.nr)| >= 400
  }

  ghost function Handlers(k: Kernel, rh: Addr, a: Addr, n: nat): set<nat> {
    set i: nat | i < n && HoldsHandler(k, rh, (a + 8 * i) % 0x1_0000_0000_0000_0000)
  }

  lemma {:induction false} CountIsHandlers(k: Kernel, rh: Addr, a: Addr, n: nat)
    ensures CountPlausible(k, a, rh, n) == |Handlers(k, rh, a, n)|
  {
    if n == 0 {
      assert Handlers(k, rh, a, n) == {};
    } else {
      CountIsHandlers(k, rh, a, n - 1);
      var before := Handlers(k, rh, a, n - 1);
      assert PlausibleAt(k, a, rh, n - 1) <==> HoldsHandler(k, rh, (a + 8 * (n - 1)) % 0x1_0000_0000_0000_0000);
      hide PlausibleAt, HoldsHandler;
      assert Handlers(k, rh, a, n) == if PlausibleAt(k, a, rh, n - 1) then before + {n - 1} else before;
    }
  }

  lemma CandidateMeans(k: Kernel, rh: Addr, wh: Addr, a: Addr)
    ensures Candidate(k, rh, wh, a) <==> IsTable(k, rh, wh, a)
  {
    hide Handlers;
    CountIsHandlers(k, rh, a, k.nr);
  }

  /** A table j words above an address, or below the read handler, within 32 MiB: 0x40_0000 words of 8 bytes. A window
      that would leave the address space is empty. */
  ghost predicate TableAbove(k: Kernel, rh: Addr, wh: Addr, start: Addr, j: nat) {
    start + 0x200_0000 < 0x1_0000_0000_0000_0000 && j < 0x40_0000 && IsTable(k, rh, wh, start + 8 * j)
  }

  ghost predicate TableBelow(k: Kernel, rh: Addr, wh: Addr, j: nat) {
    rh >= 0x200_0000 && j < 0x40_0000 && IsTable(k, rh, wh, rh - 8 * j)
  }

  /** The answer is the first table above the start; if there is none, the first below the read handler; if there is
      none either, 0. */
  ghost predicate Finds(k: Kernel, rh: Addr, wh: Addr, start: Addr, base: Addr) {
    if exists j: nat :: TableAbove(k, rh, wh, start, j) then
      exists j: nat ::
        && TableAbove(k, rh, wh, start, j) && base == start + 8 * j
        && forall i: nat :: TableAbove(k, rh, wh, start, i) ==> j <= i
    else if exists j: nat :: TableBelow(k, rh, wh, j) then
      exists j: nat ::
        && TableBelow(k, rh, wh, j) && base == rh - 8 * j
        && forall i: nat :: TableBelow(k, rh, wh, i) ==> j <= i
    else
      base == 0
  }

  /** Each address of a window is a number of words away, and the other way round. */
  lemma AboveMeans(k: Kernel, rh: Addr, wh: Addr, start: Addr)
    ensures forall j: nat :: TableAbove(k, rh, wh, start, j) ==>
              start + 8 * j < TWO_64 && InForward(start, start + 8 * j) && Candidate(k, rh, wh, start + 8 * j)
    ensures forall a: Addr :: InForward(start, a) && Candidate(k, rh, wh, a) ==>
              a >= start && TableAbove(k, rh, wh, start, (a - start) / 8) && a == start + 8 * ((a - start) / 8)
  {
    hide Candidate, IsTable;
    forall a: Addr
      ensures Candidate(k, rh, wh, a) <==> IsTable(k, rh, wh, a)
    {
      CandidateMeans(k, rh, wh, a);
    }
  }

  lemma BelowMeans(k: Kernel, rh: Addr, wh: Addr)
    ensures forall j: nat :: TableBelow(k, rh, wh, j) ==>
              8 * j <= rh && InBackward(rh, rh - 8 * j) && Candidate(k, rh, wh, rh - 8 * j)
    ensures forall a: Addr :: InBackward(rh, a) && Candidate(k, rh, wh, a) ==>
              a <= rh && TableBelow(k, rh, wh, (rh - a) / 8) && a == rh - 8 * ((rh - a) / 8)
  {
    hide Candidate, IsTable;
    forall a: Addr
      ensures Candidate(k, rh, wh, a) <==> IsTable(k, rh, wh, a)
    {
      CandidateMeans(k, rh, wh, a);
    }
  }

  lemma NotFoundMeans(k: Kernel, rh: Addr, wh: Addr, start: Addr)
    requires forall a: Addr :: InForward(start, a) || InBackward(rh, a) ==> !Candidate(k, rh, wh, a)
    ensures Finds(k, rh, wh, start, 0)
  {
    hide Candidate, InForward, InBackward, TableAbove, TableBelow;
    AboveMeans(k, rh, wh, start);
    BelowMeans(k, rh, wh);
  }

  lemma ChosenMeans(k: Kernel, rh: Addr, wh: Addr, start: Addr, base: Addr)
    requires Chosen(k, rh, wh, start, base)
    ensures Finds(k, rh, wh, start, base)
  {
    hide Candidate, InForward, InBackward, TableAbove, TableBelow;
    if InForward(start, base) {
      FirstAbove(k, rh, wh, start, base);
    } else {
      FirstBelow(k, rh, wh, start, base);
    }
  }

  lemma FirstAbove(k: Kernel, rh: Addr, wh: Addr, start: Addr, base: Addr)
    requires InForward(start, base) && Candidate(k, rh, wh, base)
    requires forall a: Addr :: InForward(start, a) && a < base ==> !Candidate(k, rh, wh, a)
    ensures Finds(k, rh, wh, start, base)
  {
    hide Candidate, InForward, TableAbove, TableBelow;
    AboveMeans(k, rh, wh, start);
    var j := (base - start) / 8;
    assert TableAbove(k, rh, wh, start, j) && base == start + 8 * j;
    forall i: nat | TableAbove(k, rh, wh, start, i) ensures j <= i {
      assert Candidate(k, rh, wh, start + 8 * i);
    }
  }

  lemma FirstBelow(k: Kernel, rh: Addr, wh: Addr, start: Addr, base: Addr)
    requires InBackward(rh, base) && Candidate(k, rh, wh, base)
    requires forall a: Addr :: InForward(start, a) ==> !Candidate(k, rh, wh, a)
    requires forall a: Addr :: InBackward(rh, a) && a > base ==> !Candidate(k, rh, wh, a)
    ensures Finds(k, rh, wh, start, base)
  {
    hide Candidate, InForward, InBackward, TableAbove, TableBelow;
    AboveMeans(k, rh, wh, start);
    BelowMeans(k, rh, wh);
    var j := (rh - base) / 8;
    assert TableBelow(k, rh, wh, j) && base == rh - 8 * j;
    forall i: nat | TableBelow(k, rh, wh, i) ensures j <= i {
      assert Candidate(k, rh, wh, rh - 8 * i);
    }
    assert forall i: nat :: !TableAbove(k, rh, wh, start, i);
  }

  /** What is discovered is the table found from the end of the text if that is known, from its start if only that is,
      and from the read handler if neither is; so with the end known, it is no lower unless no table lies above. */
  lemma DiscoveredIsFound(k: Kernel, rh: Addr, wh: Addr, etext: Addr, b: Bounds,
                          base: Addr, b': Bounds, lo: Addr, hi: Addr)
    requires Discovers(k, rh, wh, etext, b, base, b', lo, hi)
    ensures base != 0
    ensures etext != 0 ==> Finds(k, rh, wh, etext, base)
    ensures etext == 0 && b.stext != 0 ==> Finds(k, rh, wh, b.stext, base)
    ensures etext == 0 && b.stext == 0 ==> Finds(k, rh, wh, rh, base)
    ensures etext != 0 && base < etext ==> forall j: nat :: !TableAbove(k, rh, wh, etext, j)
  {
    hide Candidate, InForward, InBackward, IsTable, Extremes;
    ChosenMeans(k, rh, wh, ScanStart(rh, etext, b.stext), base);
    NeverZero(rh, ScanStart(rh, etext, b.stext), base);
  }

  // ---- the integrity check ----

  predicate InCoreText(k: Kernel, b: Bounds, e: Addr) {
    b.stext != 0 && b.textEnd != 0 && b.stext <= e < b.textEnd && !k.inModule(e)
  }

  predicate EntryBad(k: Kernel, b: Bounds, anchor: Addr, e: Addr) {
    if b.stext != 0 && b.textEnd != 0 then !InCoreText(k, b, e) else !Plausible(k, anchor, e)
  }

  predicate Flagged(k: Kernel, b: Bounds, anchor: Addr, base: Addr, i: nat) {
    var e := Entry(k, base, i);
    e.Some? && e.value != 0 && EntryBad(k, b, anchor, e.value)
  }

  /** How many of the first n entries are readable and not null. */
  ghost function CountPresent(k: Kernel, base: Addr, n: nat): nat {
    if n == 0 then 0 else
      CountPresent(k, base, n - 1) + if Entry(k, base, n - 1).Some? && Entry(k, base, n - 1).value != 0 then 1 else 0
  }

  lemma {:induction false} PresentMeans(k: Kernel, base: Addr, n: nat)
    ensures CountPresent(k, base, n) == |Present(k, base, n)|
  {
    if n == 0 {
      assert Present(k, base, n) == {};
    } else {
      PresentMeans(k, base, n - 1);
      hide Wrap, NotNull;
      var before := Present(k, base, n - 1);
      assert Present(k, base, n) == if NotNull(k, Wrap(base + 8 * (n - 1))) then before + {n - 1} else before;
      NotNullMeans(k, base, n - 1);
    }
  }

  lemma NotNullMeans(k: Kernel, base: Addr, i: nat)
    ensures NotNull(k, Wrap(base + 8 * i)) <==> Entry(k, base, i).Some? && Entry(k, base, i).value != 0
  {
  }

  ghost predicate NotNull(k: Kernel, slot: Addr) {
    slot in k.mem && k.mem[slot] != 0
  }

  /** The slots whose word can be read and is not null. */
  ghost function Present(k: Kernel, base: Addr, n: nat): set<nat> {
    set i: nat | i < n && NotNull(k, Wrap(base + 8 * i))
  }

  /** The flagged indices below n, in order. */
  ghost function FlaggedBelow(k: Kernel, b: Bounds, anchor: Addr, base: Addr, n: nat): seq<nat> {
    if n == 0 then [] else
      FlaggedBelow(k, b, anchor, base, n - 1) + if Flagged(k, b, anchor, base, n - 1) then [n - 1] else []
  }

  lemma {:induction false} FlaggedExactly(k: Kernel, b: Bounds, anchor: Addr, base: Addr, n: nat)
    ensures var f := FlaggedBelow(k, b, anchor, base, n);
            && (forall i: nat :: i in f <==> i < n && Flagged(k, b, anchor, base, i))
            && (forall i, j :: 0 <= i < j < |f| ==> f[i] < f[j])
  {
    if n > 0 {
      FlaggedExactly(k, b, anchor, base, n - 1);
      var f := FlaggedBelow(k, b, anchor, base, n - 1);
      forall i | 0 <= i < |f| ensures f[i] < n - 1 {
        assert f[i] in f;
      }
    }
  }

  datatype Check = Check(total: nat, nonText: nat, hooked: nat, ok: bool, alerts: seq<nat>)

  /** One alert per flagged entry, in table order; None when there is no table to check. */
  method CheckSyscalls(k: Kernel, b: Bounds, anchor: Addr, base: Addr) returns (r: Option<Check>)
    ensures r.None? <==> base == 0
    ensures r.Some? ==>
              && r.value.total == |Present(k, base, k.nr)|
              && r.value.alerts == FlaggedBelow(k, b, anchor, base, k.nr)
              && r.value.hooked == r.value.nonText == |r.value.alerts|
              && (forall i: nat :: i in r.value.alerts <==> i < k.nr && Flagged(k, b, anchor, base, i))
              && (r.value.ok <==> forall i: nat :: i < k.nr ==> !Flagged(k, b, anchor, base, i))
  {
    hide EntryBad, Entry;
    if base == 0 {
      return None;
    }
    var total, hooked := 0, 0;
    var alerts: seq<nat> := [];
    for i := 0 to k.nr
      invariant total == CountPresent(k, base, i) && hooked == |alerts|
      invariant alerts == FlaggedBelow(k, b, anchor, base, i)
    {
      var e := Entry(k, base, i);
      if e.Some? && e.value != 0 {
        total := total + 1;
        if EntryBad(k, b, anchor, e.value) {
          hooked := hooked + 1;
          alerts := alerts + [i];
        }
      }
    }
    PresentMeans(k, base, k.nr);
    FlaggedExactly(k, b, anchor, base, k.nr);
    assert alerts != [] ==> alerts[0] in alerts;
    r := Some(Check(total, hooked, hooked, hooked == 0, alerts));
  }

  // ---- what the check can miss, and when it is wrong ----

  lemma ExtremesArePlausible(k: Kernel, base: Addr, anchor: Addr, n: nat, lo: Addr, hi: Addr)
    requires Extremes(k, base, anchor, n, lo, hi)
    ensures Plausible(k, anchor, lo) && Plausible(k, anchor, hi) && lo <= hi
  {
    hide Plausible, Entry;
    var i :| 0 <= i < n && PlausibleAt(k, base, anchor, i) && Entry(k, base, i) == Some(lo);
    var j :| 0 <= j < n && PlausibleAt(k, base, anchor, j) && Entry(k, base, j) == Some(hi);
  }

  /** The multiples of 2 MiB next to an address. */
  lemma RoundDownMeans(a: Addr)
    ensures RoundDown(a) % 0x20_0000 == 0 && RoundDown(a) <= a < RoundDown(a) + 0x20_0000
  {
  }

  lemma RoundUpMeans(a: Addr)
    requires a != 0
    ensures RoundUp(a) % 0x20_0000 == 0
    ensures a > TWO_64 - MIB_2 ==> RoundUp(a) == 0
    ensures a <= TWO_64 - MIB_2 ==> a <= RoundUp(a) < a + MIB_2 && (RoundUp(a) == a <==> a % MIB_2 == 0)
  {
  }

  /** When a bound is known after discovery: it was before, or the handler it comes from is not at the very end of the
      address space. */
  lemma DerivedIsKnown(b: Bounds, lo: Addr, hi: Addr)
    requires hi != 0
    ensures Derived(b, lo, hi).stext != 0 <==> b.stext != 0 || lo >= MIB_2
    ensures Derived(b, lo, hi).textEnd != 0 <==> b.textEnd != 0 || hi <= TWO_64 - MIB_2
  {
    RoundUpMeans(hi);
  }

  /** Entry i of the kernel as it is at some later check raises an alert. */
  ghost predicate Alerted(later: Kernel, b: Bounds, anchor: Addr, base: Addr, i: nat) {
    i in FlaggedBelow(later, b, anchor, base, later.nr)
  }

  lemma AlertedMeans(later: Kernel, b: Bounds, anchor: Addr, base: Addr, i: nat)
    ensures Alerted(later, b, anchor, base, i) <==> i < later.nr && Flagged(later, b, anchor, base, i)
  {
    hide Flagged;
    FlaggedExactly(later, b, anchor, base, later.nr);
  }

  /** What a check misses, whatever bounds were known before discovery and whatever entries and modules the kernel has
      by the time of the check: an entry that is neither null nor unreadable raises no alert only if it is in no module
      then loaded and, where a bound was derived, at most 2 MiB beyond the handlers that discovery saw. */
  lemma MissedIsNear(k: Kernel, rh: Addr, wh: Addr, etext: Addr, b: Bounds, base: Addr, b': Bounds, lo: Addr, hi: Addr,
                     later: Kernel, i: nat, e: Addr)
    requires Discovers(k, rh, wh, etext, b, base, b', lo, hi) && SPREAD <= rh < TWO_64 - SPREAD
    requires i < later.nr && Entry(later, base, i) == Some(e) && e != 0 && !Alerted(later, b', rh, base, i)
    ensures !later.inModule(e)
    ensures if b.stext != 0 && b'.textEnd != 0 then b.stext <= e else rh < e + SPREAD + MIB_2
    ensures if b.textEnd != 0 && b'.stext != 0 then e < b.textEnd else e < rh + SPREAD + MIB_2
  {
    hide Alerted, Entry, Extremes, Chosen;
    AlertedMeans(later, b', rh, base, i);
    ExtremesArePlausible(k, base, rh, k.nr, lo, hi);
    PlausibleMeansNear(k, rh, lo);
    PlausibleMeansNear(k, rh, hi);
    PlausibleMeansNear(later, rh, e);
    RoundUpMeans(hi);
  }

  /** And exactly what it misses. */
  lemma MissedExactly(k: Kernel, rh: Addr, wh: Addr, etext: Addr, b: Bounds, base: Addr, b': Bounds, lo: Addr, hi: Addr,
                      later: Kernel, i: nat)
    requires Discovers(k, rh, wh, etext, b, base, b', lo, hi) && i < later.nr
    ensures var e := Entry(later, base, i);
            !Alerted(later, b', rh, base, i) <==>
              || e.None? || e.value == 0
              || (&& !later.inModule(e.value)
                  && if (b.stext != 0 || lo >= MIB_2) && (b.textEnd != 0 || hi <= TWO_64 - MIB_2)
                     then (if b.stext != 0 then b.stext else RoundDown(lo)) <= e.value
                          < if b.textEnd != 0 then b.textEnd else RoundUp(hi)
                     else Wrap(rh - SPREAD) < e.value < Wrap(rh + SPREAD))
  {
    hide Alerted, Entry, Extremes, Chosen, RoundDown, RoundUp;
    AlertedMeans(later, b', rh, base, i);
    ExtremesArePlausible(k, base, rh, k.nr, lo, hi);
    DerivedIsKnown(b, lo, hi);
  }

  /** What it misses after the module has loaded, by the two text symbols: with both known, what lies between them; with
      only the start known, what lies in the 512 MiB from there, or nothing if these go beyond the address space; with
      only the end known, what lies between the derived start and it. */
  lemma MissedAfterLoading(k: Kernel, rh: Addr, wh: Addr, stext: Addr, etext: Addr, base: Addr, b': Bounds,
                           lo: Addr, hi: Addr, later: Kernel, i: nat, e: Addr)
    requires Discovers(k, rh, wh, etext, Resolved(stext, etext), base, b', lo, hi)
    requires i < later.nr && Entry(later, base, i) == Some(e) && e != 0
    ensures var quiet := !Alerted(later, b', rh, base, i);
            && (stext != 0 && etext != 0 ==> (quiet <==> !later.inModule(e) && stext <= e < etext))
            && (stext != 0 && etext == 0 && stext + 0x2000_0000 < 0x1_0000_0000_0000_0000 ==>
                  (quiet <==> !later.inModule(e) && stext <= e < stext + 0x2000_0000))
            && (stext != 0 && etext == 0 && stext + 0x2000_0000 > 0x1_0000_0000_0000_0000 ==> !quiet)
            && (stext == 0 && etext != 0 && lo >= 0x20_0000 ==>
                  (quiet <==> !later.inModule(e) && lo - lo % 0x20_0000 <= e < etext))
  {
    hide Alerted, Entry, Extremes, Chosen;
    MissedExactly(k, rh, wh, etext, Resolved(stext, etext), base, b', lo, hi, later, i);
  }

  /** A handler that discovery itself saw is flagged, by a check of the untouched table, if and only if it lies
      outside a bound that was known before, or the upper bound was derived and the handler is the topmost one and
      lies exactly on a 2 MiB boundary; and both bounds are known by then. */
  lemma FalseAlarmExactly(k: Kernel, b: Bounds, base: Addr, anchor: Addr, lo: Addr, hi: Addr, i: nat)
    requires Extremes(k, base, anchor, k.nr, lo, hi) && i < k.nr && PlausibleAt(k, base, anchor, i)
    ensures var e := Entry(k, base, i).value;
            Flagged(k, Derived(b, lo, hi), anchor, base, i) <==>
              && (b.stext != 0 || lo >= MIB_2) && (b.textEnd != 0 || hi <= TWO_64 - MIB_2)
              && (|| (b.stext != 0 && e < b.stext)
                  || if b.textEnd != 0 then e >= b.textEnd else e == hi && hi % MIB_2 == 0)
  {
    hide Entry;
    ExtremesArePlausible(k, base, anchor, k.nr, lo, hi);
    DerivedIsKnown(b, lo, hi);
    RoundUpMeans(hi);
  }

  /** So the check of an untouched table raises no alarm on the handlers discovery saw if and only if they all lie
      within the bounds known before and, if the upper one was not, the topmost is off every 2 MiB boundary; or if a
      bound is still unknown. */
  lemma NoFalseAlarms(k: Kernel, rh: Addr, wh: Addr, etext: Addr, b: Bounds, base: Addr, b': Bounds, lo: Addr, hi: Addr)
    requires Discovers(k, rh, wh, etext, b, base, b', lo, hi)
    ensures (forall i :: 0 <= i < k.nr && PlausibleAt(k, base, rh, i) ==> !Flagged(k, b', rh, base, i)) <==>
              || (b.stext == 0 && lo < MIB_2) || (b.textEnd == 0 && hi > TWO_64 - MIB_2)
              || (b.stext <= lo && if b.textEnd != 0 then hi < b.textEnd else hi % MIB_2 != 0)
  {
    hide Flagged, Chosen, Derived;
    forall i | 0 <= i < k.nr && PlausibleAt(k, base, rh, i)
      ensures var e := Entry(k, base, i).value;
              Flagged(k, b', rh, base, i) <==>
                && (b.stext != 0 || lo >= MIB_2) && (b.textEnd != 0 || hi <= TWO_64 - MIB_2)
                && (|| (b.stext != 0 && e < b.stext)
                    || if b.textEnd != 0 then e >= b.textEnd else e == hi && hi % MIB_2 == 0)
    {
      FalseAlarmExactly(k, b, base, rh, lo, hi, i);
    }
    hide PlausibleAt, Entry;
    var i :| 0 <= i < k.nr && PlausibleAt(k, base, rh, i) && Entry(k, base, i) == Some(lo);
    var j :| 0 <= j < k.nr && PlausibleAt(k, base, rh, j) && Entry(k, base, j) == Some(hi);
  }

  lemma ChosenIsUnique(k: Kernel, rh: Addr, wh: Addr, start: Addr, base: Addr, other: Addr)
    requires Chosen(k, rh, wh, start, base) && Chosen(k, rh, wh, start, other)
    ensures base == other
  {
    hide Candidate, InForward, InBackward;
  }

  /** Discovery has one outcome. */
  lemma DiscoveryIsUnique(k: Kernel, rh: Addr, wh: Addr, etext: Addr, b: Bounds,
                          base: Addr, b': Bounds, lo: Addr, hi: Addr,
                          base2: Addr, b2: Bounds, lo2: Addr, hi2: Addr)
    requires Discovers(k, rh, wh, etext, b, base, b', lo, hi) && Discovers(k, rh, wh, etext, b, base2, b2, lo2, hi2)
    ensures base == base2 && b' == b2 && lo == lo2 && hi == hi2
  {
    hide Chosen, PlausibleAt, Entry, Derived;
    ChosenIsUnique(k, rh, wh, ScanStart(rh, etext, b.stext), base, base2);
  }

  // ---- a false alarm ----

  const READ: Addr := 0x3FFF_F000
  const OTHERS: Addr := 0x4000_0000
  const TABLE: Addr := 0x4100_0000

  /** A kernel without modules whose 400 handlers are the read handler and one on a 2 MiB boundary above it. */
  ghost function BoundaryKernel(): Kernel {
    var mem := map a: Addr | TABLE <= a < TABLE + 8 * ENOUGH && a % 8 == 0 :: if a == TABLE then READ else OTHERS;
    Kernel(mem, _ => false, ENOUGH)
  }

  lemma BoundaryEntry(i: nat)
    requires i < ENOUGH
    ensures Entry(BoundaryKernel(), TABLE, i) == Some(if i == 0 then READ else OTHERS)
    ensures PlausibleAt(BoundaryKernel(), TABLE, READ, i)
  {
    assert Wrap(TABLE + 8 * i) == TABLE + 8 * i;
    assert (TABLE + 8 * i) % 8 == 0;
  }

  lemma {:induction false} BoundaryCount(n: nat)
    requires n <= ENOUGH
    ensures CountPlausible(BoundaryKernel(), TABLE, READ, n) == n
  {
    hide PlausibleAt, BoundaryKernel;
    if n > 0 {
      BoundaryCount(n - 1);
      BoundaryEntry(n - 1);
    }
  }

  lemma BoundaryIsDiscovered()
    ensures Discovers(BoundaryKernel(), READ, OTHERS, 0, Resolved(0, 0), TABLE,
                      Bounds(RoundDown(READ), RoundUp(OTHERS)), READ, OTHERS)
  {
    hide PlausibleAt, Entry, CountPlausible, RoundDown, RoundUp;
    var k := BoundaryKernel();
    BoundaryCount(ENOUGH);
    forall j | 0 <= j < ENOUGH
      ensures PlausibleAt(k, TABLE, READ, j) && Entry(k, TABLE, j) == Some(if j == 0 then READ else OTHERS)
    {
      BoundaryEntry(j);
    }
    assert PlausibleAt(k, TABLE, READ, 0) && PlausibleAt(k, TABLE, READ, 1);
    assert Candidate(k, READ, OTHERS, TABLE);
    assert forall a: Addr :: Candidate(k, READ, OTHERS, a) ==> a == TABLE;
    assert InForward(READ, TABLE);
  }

  /** With no text bound known, discovery in that kernel finds its table and nothing else, and a check of the untouched
      table then alerts on every entry but the first. */
  lemma UntouchedTableIsFlagged(base: Addr, b: Bounds, lo: Addr, hi: Addr, i: nat)
    requires 0 < i < ENOUGH
    ensures Discovers(BoundaryKernel(), READ, OTHERS, 0, Resolved(0, 0), base, b, lo, hi) <==>
            base == TABLE && b == Bounds(RoundDown(READ), RoundUp(OTHERS)) && lo == READ && hi == OTHERS
    ensures Alerted(BoundaryKernel(), Bounds(RoundDown(READ), RoundUp(OTHERS)), READ, TABLE, i)
  {
    hide Discovers, Alerted, Flagged, RoundDown, RoundUp;
    var k, derived := BoundaryKernel(), Bounds(RoundDown(READ), RoundUp(OTHERS));
    BoundaryIsDiscovered();
    if Discovers(k, READ, OTHERS, 0, Resolved(0, 0), base, b, lo, hi) {
      DiscoveryIsUnique(k, READ, OTHERS, 0, Resolved(0, 0), base, b, lo, hi, TABLE, derived, READ, OTHERS);
    }
    BoundaryEntry(i);
    BoundaryExtremes();
    FalseAlarmExactly(k, Resolved(0, 0), TABLE, READ, READ, OTHERS, i);
    AlertedMeans(k, derived, READ, TABLE, i);
  }

  lemma BoundaryExtremes()
    ensures Extremes(BoundaryKernel(), TABLE, READ, ENOUGH, READ, OTHERS)
  {
    hide Extremes, Chosen, BoundaryKernel;
    BoundaryIsDiscovered();
    assert BoundaryKernel().nr == ENOUGH by {
      BoundarySize();
    }
  }

  lemma BoundarySize()
    ensures BoundaryKernel().nr == ENOUGH
  {
  }
}
