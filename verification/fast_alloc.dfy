/** The magazine allocator of flow/FastAlloc.cpp, for one size class and one
    thread, in its thread-safe configuration. A thread holds a freelist of
    free slots with its count, and perhaps one full spare magazine (the
    alternate); the global lists hold full magazines and partial ones. Each
    critical section is one step. Slots are addresses; the system allocator
    that backs a brand-new magazine is a parameter giving the block address. */
module FastAlloc {
  import opened Base

  /** getSizeCode: the size classes 16, 32, ..., 8192 are numbered 1 to 10,
      anything else is 11. */
  function GetSizeCode(i: int): (code: int)
    ensures 1 <= code <= 11
  {
    if i == 16 then 1
    else if i == 32 then 2
    else if i == 64 then 3
    else if i == 128 then 4
    else if i == 256 then 5
    else if i == 512 then 6
    else if i == 1024 then 7
    else if i == 2048 then 8
    else if i == 4096 then 9
    else if i == 8192 then 10
    else 11
  }

  lemma PowersOfTwo()
    ensures Pow(2, 4) == 16 && Pow(2, 5) == 32 && Pow(2, 6) == 64 && Pow(2, 7) == 128
    ensures Pow(2, 8) == 256 && Pow(2, 9) == 512 && Pow(2, 10) == 1024
    ensures Pow(2, 11) == 2048 && Pow(2, 12) == 4096 && Pow(2, 13) == 8192
  {
  }

  /** Exactly the powers of two from 2^4 to 2^13 get their own code, k - 3
      for 2^k; every other value shares code 11. */
  lemma SizeCodeOfPowers(i: int)
    ensures GetSizeCode(i) <= 10 <==> exists k :: 4 <= k <= 13 && i == Pow(2, k)
    ensures forall k :: 4 <= k <= 13 ==> GetSizeCode(Pow(2, k)) == k - 3
  {
    PowersOfTwo();
    if GetSizeCode(i) <= 10 {
      var k := GetSizeCode(i) + 3;
      assert i == Pow(2, k);
    }
  }

  /** The slot size and how many slots a full magazine holds. */
  datatype Config = Config(size: nat, magazineSize: nat)

  predicate ValidConfig(cfg: Config) {
    cfg.size > 0 && cfg.magazineSize > 0
  }

  /** threadData: the freelist (head first; empty is nullptr), the spare full
      magazine, and the count. */
  datatype ThreadData = ThreadData(freelist: seq<nat>, alternate: Option<seq<nat>>, count: int)

  const EMPTY_THREAD := ThreadData([], None, 0)

  /** An entry of partial_magazines: a count and its freelist. */
  datatype PartialMagazine = PartialMagazine(count: int, slots: seq<nat>)

  /** globalData(). */
  datatype GlobalData = GlobalData(magazines: seq<seq<nat>>, partialMagazines: seq<PartialMagazine>,
                                   totalMemory: int, partialMagazineUnallocatedMemory: int, activeThreads: int)

  datatype Allocator = Allocator(thread: ThreadData, threadInitialized: bool, global: GlobalData)

  /** The thread's count is the length of its freelist (so the freelist is
      empty exactly when the count is 0), never above a full magazine, and
      the alternate is a full magazine. An uninitialised thread holds nothing. */
  predicate ThreadValid(cfg: Config, t: ThreadData, initialized: bool) {
    t.count == |t.freelist| <= cfg.magazineSize
    && (t.alternate.Some? ==> |t.alternate.value| == cfg.magazineSize)
    && (!initialized ==> t == EMPTY_THREAD)
  }

  /** Slots held by the partial magazines. */
  function PartialSlots(ps: seq<PartialMagazine>): nat
    decreases |ps|
  {
    if |ps| == 0 then 0 else PartialSlots(ps[..|ps| - 1]) + |ps[|ps| - 1].slots|
  }

  /** Global magazines are full, partial ones hold between 1 and a full
      magazine's worth with their count, and the unallocated total is what
      the partial magazines hold. */
  predicate GlobalValid(cfg: Config, g: GlobalData) {
    (forall i :: 0 <= i < |g.magazines| ==> |g.magazines[i]| == cfg.magazineSize)
    && (forall i :: 0 <= i < |g.partialMagazines| ==>
          0 < g.partialMagazines[i].count == |g.partialMagazines[i].slots| <= cfg.magazineSize)
    && g.partialMagazineUnallocatedMemory == PartialSlots(g.partialMagazines) * cfg.size
  }

  predicate Valid(cfg: Config, a: Allocator) {
    ValidConfig(cfg) && ThreadValid(cfg, a.thread, a.threadInitialized) && GlobalValid(cfg, a.global)
  }

  /** initThread: the thread joins with nothing in hand, and the global
      lists are untouched. */
  function InitThread(a: Allocator): (r: Allocator)
    ensures r.threadInitialized && r.global.activeThreads == a.global.activeThreads + 1
    ensures r.global.(activeThreads := a.global.activeThreads) == a.global
    ensures forall cfg :: ValidConfig(cfg) && GlobalValid(cfg, a.global) ==> Valid(cfg, r)
  {
    a.(threadInitialized := true,
       global := a.global.(activeThreads := a.global.activeThreads + 1),
       thread := EMPTY_THREAD)
  }

  /** A fresh block cut into a chain of magazine_size slots, each `size`
      bytes after the one before. */
  function NewMagazine(cfg: Config, block: nat): (m: seq<nat>)
    requires ValidConfig(cfg)
    ensures |m| == cfg.magazineSize && m[0] == block
  {
    seq(cfg.magazineSize, i requires 0 <= i => block + i * cfg.size)
  }

  /** The slots of a new magazine are distinct, in address order, each
      `size` bytes on from the one before. */
  lemma NewMagazineSlots(cfg: Config, block: nat)
    requires ValidConfig(cfg)
    ensures var m := NewMagazine(cfg, block);
      (forall i :: 0 < i < |m| ==> m[i] == m[i - 1] + cfg.size)
      && (forall i, j :: 0 <= i < j < |m| ==> m[i] < m[j])
  {
    var m := NewMagazine(cfg, block);
    forall i | 0 < i < |m|
      ensures m[i] == m[i - 1] + cfg.size
    {
      MulAddRight(i - 1, 1, cfg.size);
    }
    forall i, j | 0 <= i < j < |m|
      ensures m[i] < m[j]
    {
      MulStrictRight(i, j, cfg.size);
    }
  }

  lemma MulAddRight(x: int, c: int, s: int)
    ensures (x + c) * s == x * s + c * s
  {
  }

  lemma MulStrictRight(i: nat, j: nat, s: nat)
    requires i < j && s > 0
    ensures i * s < j * s
  {
    MulAddRight(i, j - i, s);
  }

  /** getMagazine: a full global magazine if there is one, else a partial one
      (whose slots leave the unallocated total), else a new block, which adds
      a magazine's worth to totalMemory. */
  function GetMagazine(cfg: Config, a: Allocator, block: nat): (r: Allocator)
    requires Valid(cfg, a) && a.threadInitialized && a.thread == EMPTY_THREAD
    ensures Valid(cfg, r) && r.threadInitialized
    ensures r.thread.alternate == None && |r.thread.freelist| > 0
    ensures r.global.activeThreads == a.global.activeThreads
    ensures |a.global.magazines| > 0 ==>
      r.thread.freelist == a.global.magazines[|a.global.magazines| - 1]
      && r.thread.count == cfg.magazineSize
      && r.global == a.global.(magazines := a.global.magazines[..|a.global.magazines| - 1])
    ensures |a.global.magazines| == 0 && |a.global.partialMagazines| > 0 ==>
      var p := a.global.partialMagazines[|a.global.partialMagazines| - 1];
      r.thread.freelist == p.slots && r.thread.count == p.count
      && r.global.partialMagazines == a.global.partialMagazines[..|a.global.partialMagazines| - 1]
      && r.global.partialMagazineUnallocatedMemory == a.global.partialMagazineUnallocatedMemory - p.count * cfg.size
      && r.global.totalMemory == a.global.totalMemory
    ensures |a.global.magazines| == 0 && |a.global.partialMagazines| == 0 ==>
      r.thread.freelist == NewMagazine(cfg, block) && r.thread.count == cfg.magazineSize
      && r.global == a.global.(totalMemory := a.global.totalMemory + cfg.magazineSize * cfg.size)
  {
    var g := a.global;
    if |g.magazines| > 0 then
      var m := g.magazines[|g.magazines| - 1];
      a.(thread := ThreadData(m, None, cfg.magazineSize), global := g.(magazines := g.magazines[..|g.magazines| - 1]))
    else if |g.partialMagazines| > 0 then
      var ps := g.partialMagazines;
      var p := ps[|ps| - 1];
      PopPartialValid(cfg, g);
      a.(thread := ThreadData(p.slots, None, p.count),
         global := g.(partialMagazines := ps[..|ps| - 1],
                      partialMagazineUnallocatedMemory := g.partialMagazineUnallocatedMemory - p.count * cfg.size))
    else
      a.(thread := ThreadData(NewMagazine(cfg, block), None, cfg.magazineSize),
         global := g.(totalMemory := g.totalMemory + cfg.magazineSize * cfg.size))
  }

  /** Taking the last partial magazine off the global list, and its bytes off
      the unallocated total, keeps the global lists well formed. */
  lemma PopPartialValid(cfg: Config, g: GlobalData)
    requires GlobalValid(cfg, g) && |g.partialMagazines| > 0
    ensures var ps := g.partialMagazines;
      GlobalValid(cfg, g.(partialMagazines := ps[..|ps| - 1],
                          partialMagazineUnallocatedMemory := g.partialMagazineUnallocatedMemory - ps[|ps| - 1].count * cfg.size))
  {
    var ps := g.partialMagazines;
    var p := ps[|ps| - 1];
    assert PartialSlots(ps) == PartialSlots(ps[..|ps| - 1]) + p.count;
    assert PartialSlots(ps) * cfg.size == PartialSlots(ps[..|ps| - 1]) * cfg.size + p.count * cfg.size;
  }

  /** allocate: the slot handed out and the allocator afterwards. An empty
      freelist is refilled first, from the alternate if there is one and only
      otherwise by getMagazine; then the head slot is taken and the count
      drops by one. */
  function Allocate(cfg: Config, a: Allocator, block: nat): (r: (Allocator, nat))
    requires Valid(cfg, a)
    ensures Valid(cfg, r.0) && r.0.threadInitialized
    ensures a.threadInitialized && |a.thread.freelist| > 0 ==>
      r.1 == a.thread.freelist[0]
      && r.0 == a.(thread := a.thread.(freelist := a.thread.freelist[1..], count := a.thread.count - 1))
    ensures a.threadInitialized && |a.thread.freelist| == 0 && a.thread.alternate.Some? ==>
      var alt := a.thread.alternate.value;
      r.1 == alt[0] && r.0 == a.(thread := ThreadData(alt[1..], None, cfg.magazineSize - 1))
    ensures (!a.threadInitialized || (|a.thread.freelist| == 0 && a.thread.alternate.None?)) ==>
      var m := GetMagazine(cfg, if a.threadInitialized then a else InitThread(a), block);
      r.1 == m.thread.freelist[0]
      && r.0 == m.(thread := m.thread.(freelist := m.thread.freelist[1..], count := m.thread.count - 1))
  {
    var a1 := if a.threadInitialized then a else InitThread(a);
    var t := a1.thread;
    var a2 :=
      if |t.freelist| > 0 then a1
      else if t.alternate.Some? then a1.(thread := ThreadData(t.alternate.value, None, cfg.magazineSize))
      else GetMagazine(cfg, a1, block);
    var t2 := a2.thread;
    (a2.(thread := t2.(freelist := t2.freelist[1..], count := t2.count - 1)), t2.freelist[0])
  }

  /** release: a full freelist first becomes the alternate (a previous
      alternate goes to the global magazines), then the slot is pushed. */
  function Release(cfg: Config, a: Allocator, ptr: nat): (r: Allocator)
    requires Valid(cfg, a)
    ensures Valid(cfg, r) && r.threadInitialized
    ensures 0 < r.thread.count <= cfg.magazineSize && r.thread.freelist[0] == ptr
    ensures a.threadInitialized && a.thread.count < cfg.magazineSize ==>
      r == a.(thread := a.thread.(freelist := [ptr] + a.thread.freelist, count := a.thread.count + 1))
    ensures a.threadInitialized && a.thread.count == cfg.magazineSize ==>
      r.thread == ThreadData([ptr], Some(a.thread.freelist), 1)
      && r.global == (if a.thread.alternate.Some?
                      then a.global.(magazines := a.global.magazines + [a.thread.alternate.value])
                      else a.global)
  {
    var a1 := if a.threadInitialized then a else InitThread(a);
    var t := a1.thread;
    var a2 :=
      if t.count == cfg.magazineSize then
        var g := a1.global;
        var g2 := if t.alternate.Some? then ReleaseMagazine(cfg, g, t.alternate.value) else g;
        a1.(thread := ThreadData([], Some(t.freelist), 0), global := g2)
      else a1;
    var t2 := a2.thread;
    a2.(thread := t2.(freelist := [ptr] + t2.freelist, count := t2.count + 1))
  }

  /** releaseMagazine: a full magazine joins the global list. */
  function ReleaseMagazine(cfg: Config, g: GlobalData, m: seq<nat>): (r: GlobalData)
    requires GlobalValid(cfg, g) && |m| == cfg.magazineSize
    ensures GlobalValid(cfg, r)
    ensures MagazineSlots(r.magazines) == MagazineSlots(g.magazines) + |m|
  {
    MagazineSlotsSnoc(g.magazines, m);
    g.(magazines := g.magazines + [m])
  }

  /** A partial freelist joins the partial magazines with its count, and its
      bytes join the unallocated total. */
  function ReleasePartial(cfg: Config, g: GlobalData, p: PartialMagazine): (r: GlobalData)
    requires GlobalValid(cfg, g) && 0 < p.count == |p.slots| <= cfg.magazineSize
    ensures GlobalValid(cfg, r)
    ensures PartialSlots(r.partialMagazines) == PartialSlots(g.partialMagazines) + p.count
  {
    PartialSlotsSnoc(g.partialMagazines, p);
    MulAddRight(PartialSlots(g.partialMagazines), p.count, cfg.size);
    g.(partialMagazines := g.partialMagazines + [p],
       partialMagazineUnallocatedMemory := g.partialMagazineUnallocatedMemory + p.count * cfg.size)
  }

  /** releaseThreadMagazines: a partial freelist goes to the partial
      magazines with its count, the alternate to the full ones, and the
      thread leaves with nothing. */
  function ReleaseThreadMagazines(cfg: Config, a: Allocator): (r: Allocator)
    requires Valid(cfg, a)
    ensures Valid(cfg, r) && !r.threadInitialized && r.thread == EMPTY_THREAD
    ensures !a.threadInitialized ==> r == a
    ensures a.threadInitialized ==>
      var t := a.thread;
      r.global.activeThreads == a.global.activeThreads - 1
      && r.global.totalMemory == a.global.totalMemory
      && r.global.magazines
         == (if t.alternate.Some? then a.global.magazines + [t.alternate.value] else a.global.magazines)
      && r.global.partialMagazines
         == (if |t.freelist| > 0 then a.global.partialMagazines + [PartialMagazine(t.count, t.freelist)]
             else a.global.partialMagazines)
      && r.global.partialMagazineUnallocatedMemory
         == a.global.partialMagazineUnallocatedMemory + t.count * cfg.size
  {
    if !a.threadInitialized then a
    else
      var t := a.thread;
      var g1 := if t.alternate.Some? then ReleaseMagazine(cfg, a.global, t.alternate.value) else a.global;
      var g2 := if |t.freelist| > 0 then ReleasePartial(cfg, g1, PartialMagazine(t.count, t.freelist)) else g1;
      Allocator(EMPTY_THREAD, false, g2.(activeThreads := g2.activeThreads - 1))
  }

  /** A thread that joins and leaves again without allocating leaves the
      allocator exactly as it found it. */
  lemma InitThenRelease(cfg: Config, a: Allocator)
    requires Valid(cfg, a) && !a.threadInitialized
    ensures ReleaseThreadMagazines(cfg, InitThread(a)) == a
  {
  }

  /** getApproximateMemoryUnused. */
  function GetApproximateMemoryUnused(cfg: Config, g: GlobalData): int {
    |g.magazines| * cfg.magazineSize * cfg.size + g.partialMagazineUnallocatedMemory
  }

  /** Free slots held by the global lists. */
  function GlobalSlots(g: GlobalData): nat {
    MagazineSlots(g.magazines) + PartialSlots(g.partialMagazines)
  }

  function MagazineSlots(ms: seq<seq<nat>>): nat
    decreases |ms|
  {
    if |ms| == 0 then 0 else MagazineSlots(ms[..|ms| - 1]) + |ms[|ms| - 1]|
  }

  /** The approximate unused memory is exactly the bytes of the free slots
      parked in the global lists. */
  lemma {:induction false} ApproximateUnusedIsGlobalSlots(cfg: Config, g: GlobalData)
    requires ValidConfig(cfg) && GlobalValid(cfg, g)
    ensures GetApproximateMemoryUnused(cfg, g) == GlobalSlots(g) * cfg.size
  {
    FullMagazineSlots(cfg, g.magazines);
  }

  lemma {:induction false} FullMagazineSlots(cfg: Config, ms: seq<seq<nat>>)
    requires forall i :: 0 <= i < |ms| ==> |ms[i]| == cfg.magazineSize
    ensures MagazineSlots(ms) == |ms| * cfg.magazineSize
    decreases |ms|
  {
    if |ms| > 0 {
      FullMagazineSlots(cfg, ms[..|ms| - 1]);
    }
  }

  /** Every free slot the allocator holds: the thread's freelist and
      alternate and the global lists. */
  function FreeSlots(a: Allocator): nat {
    |a.thread.freelist| + (if a.thread.alternate.Some? then |a.thread.alternate.value| else 0) + GlobalSlots(a.global)
  }

  /** totalMemory accounts for every slot: the free ones plus the
      `outstanding` ones handed out and not yet released. */
  predicate Accounted(cfg: Config, a: Allocator, outstanding: nat) {
    (FreeSlots(a) + outstanding) * cfg.size == a.global.totalMemory
  }

  lemma MagazineSlotsSnoc(ms: seq<seq<nat>>, m: seq<nat>)
    ensures MagazineSlots(ms + [m]) == MagazineSlots(ms) + |m|
  {
    assert (ms + [m])[..|ms|] == ms;
  }

  lemma MagazineSlotsPop(ms: seq<seq<nat>>)
    requires |ms| > 0
    ensures MagazineSlots(ms) == MagazineSlots(ms[..|ms| - 1]) + |ms[|ms| - 1]|
  {
  }

  lemma PartialSlotsSnoc(ps: seq<PartialMagazine>, p: PartialMagazine)
    ensures PartialSlots(ps + [p]) == PartialSlots(ps) + |p.slots|
  {
    assert (ps + [p])[..|ps|] == ps;
  }

  /** The balance carries over when the free and outstanding slots add up
      to the same number and totalMemory is unchanged. */
  lemma AccountedMove(cfg: Config, a: Allocator, o: nat, b: Allocator, o': nat)
    requires Accounted(cfg, a, o)
    requires FreeSlots(b) + o' == FreeSlots(a) + o && b.global.totalMemory == a.global.totalMemory
    ensures Accounted(cfg, b, o')
  {
  }

  /** getMagazine keeps the balance: a global magazine moves to the thread,
      or a new one adds its slots and their bytes. */
  lemma GetMagazineAccounted(cfg: Config, a: Allocator, block: nat, outstanding: nat)
    requires Valid(cfg, a) && a.threadInitialized && a.thread == EMPTY_THREAD
    requires Accounted(cfg, a, outstanding)
    ensures Accounted(cfg, GetMagazine(cfg, a, block), outstanding)
  {
    var g := a.global;
    var r := GetMagazine(cfg, a, block);
    if |g.magazines| > 0 {
      MagazineSlotsPop(g.magazines);
      assert FreeSlots(r) == FreeSlots(a);
    } else if |g.partialMagazines| > 0 {
      var ps := g.partialMagazines;
      assert PartialSlots(ps) == PartialSlots(ps[..|ps| - 1]) + |ps[|ps| - 1].slots|;
      assert FreeSlots(r) == FreeSlots(a);
    } else {
      assert FreeSlots(r) == FreeSlots(a) + cfg.magazineSize;
      MulAddRight(FreeSlots(a) + outstanding, cfg.magazineSize, cfg.size);
    }
  }

  /** allocate hands out one slot: the free slots drop by one, except that a
      brand-new magazine adds its slots and its bytes to totalMemory. */
  lemma AllocateAccounted(cfg: Config, a: Allocator, block: nat, outstanding: nat)
    requires Valid(cfg, a) && Accounted(cfg, a, outstanding)
    ensures Accounted(cfg, Allocate(cfg, a, block).0, outstanding + 1)
  {
    var a1 := if a.threadInitialized then a else InitThread(a);
    AccountedMove(cfg, a, outstanding, a1, outstanding);
    var t := a1.thread;
    var a2 :=
      if |t.freelist| > 0 then a1
      else if t.alternate.Some? then a1.(thread := ThreadData(t.alternate.value, None, cfg.magazineSize))
      else GetMagazine(cfg, a1, block);
    if |t.freelist| == 0 && t.alternate.None? {
      GetMagazineAccounted(cfg, a1, block, outstanding);
    } else {
      AccountedMove(cfg, a1, outstanding, a2, outstanding);
    }
    AccountedMove(cfg, a2, outstanding, Allocate(cfg, a, block).0, outstanding + 1);
  }

  /** release takes one slot back; parking a full alternate globally moves
      slots without changing their number. */
  lemma ReleaseAccounted(cfg: Config, a: Allocator, ptr: nat, outstanding: nat)
    requires Valid(cfg, a) && Accounted(cfg, a, outstanding + 1)
    ensures Accounted(cfg, Release(cfg, a, ptr), outstanding)
  {
    var a1 := if a.threadInitialized then a else InitThread(a);
    var t := a1.thread;
    if t.count == cfg.magazineSize && t.alternate.Some? {
      MagazineSlotsSnoc(a1.global.magazines, t.alternate.value);
    }
    AccountedMove(cfg, a, outstanding + 1, Release(cfg, a, ptr), outstanding);
  }

  /** A thread leaving gives every slot it held to the global lists. */
  lemma ReleaseThreadAccounted(cfg: Config, a: Allocator, outstanding: nat)
    requires Valid(cfg, a) && Accounted(cfg, a, outstanding)
    ensures Accounted(cfg, ReleaseThreadMagazines(cfg, a), outstanding)
  {
    if a.threadInitialized {
      var t := a.thread;
      var g1 := if t.alternate.Some? then ReleaseMagazine(cfg, a.global, t.alternate.value) else a.global;
      var g2 := if |t.freelist| > 0 then ReleasePartial(cfg, g1, PartialMagazine(t.count, t.freelist)) else g1;
      assert GlobalSlots(g1) == GlobalSlots(a.global) + (if t.alternate.Some? then |t.alternate.value| else 0);
      assert GlobalSlots(g2) == GlobalSlots(g1) + |t.freelist|;
      AccountedMove(cfg, a, outstanding, ReleaseThreadMagazines(cfg, a), outstanding);
    }
  }

  /** Releasing the slot just allocated from a non-empty freelist puts the
      allocator back as it was. */
  lemma ReleaseUndoesAllocate(cfg: Config, a: Allocator, block: nat)
    requires Valid(cfg, a) && a.threadInitialized && |a.thread.freelist| > 0
    ensures var r := Allocate(cfg, a, block); Release(cfg, r.0, r.1) == a
  {
    var t := a.thread;
    assert [t.freelist[0]] + t.freelist[1..] == t.freelist;
  }
}
