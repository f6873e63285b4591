/**
 Placing the data disks of one VM on the devices of one host.

 Disks are placed in order; each goes to the best of the devices that match,
 can be scheduled and have room after the disks before it. `Greedy` says so
 about a list of placements without saying how it was computed.
 */
module Disks {
  import opened Naming
  import opened Tables
  import opened Scoring

  datatype Device = Device(id: string, freeBytes: int, schedulable: bool, replicated: set<string>)
  datatype PoolView = PoolView(name: string, backend: string, labels: map<string, string>, devices: seq<Device>)

  /** `gib` is a 64-bit unsigned size; `purpose` is 0, 1 or 2 in a well-formed request. */
  datatype Disk = Disk(gib: nat, selector: Option<Placement>, purpose: int) {
    predicate Known() { 0 <= purpose <= 2 }

    function Selector(): Placement {
      if selector.Some? then selector.value else ANYWHERE
    }
  }

  type Key = (string, string)   // pool and device

  datatype DiskPlacement = DiskPlacement(index: nat, key: Key, gib: nat, purpose: int)

  datatype Slot = Slot(pool: PoolView, device: Device) {
    function Key(): Key { (pool.name, device.id) }
  }

  // --- Byte counts ---

  /** A size is charged as a positive number of bytes exactly when it is below 2^63; above, the disk frees space. */
  lemma NeedIsPositiveIff(gib: nat)
    requires 0 < gib < U64_END
    ensures NeedBytes(gib) > 0 <==> gib < I64_END
    ensures gib < GIB_END ==> NeedBytes(gib) == gib * GIB
  {
  }

  // --- Candidates ---

  /** The first `n` devices of a pool. */
  function DeviceSlots(pool: PoolView, n: nat): (slots: seq<Slot>)
    requires n <= |pool.devices|
    ensures |slots| == n && forall i :: 0 <= i < n ==> slots[i] == Slot(pool, pool.devices[i])
  {
    if n == 0 then [] else DeviceSlots(pool, n - 1) + [Slot(pool, pool.devices[n - 1])]
  }

  /** All devices, pool by pool, in the order of the view. */
  function Slots(pools: seq<PoolView>): seq<Slot>
    decreases |pools|
  {
    if pools == [] then []
    else
      var last := pools[|pools| - 1];
      Slots(pools[..|pools| - 1]) + DeviceSlots(last, |last.devices|)
  }

  /** How many devices the pools before pool `i` have. */
  function DevicesBefore(pools: seq<PoolView>, i: nat): nat
    requires i <= |pools|
  {
    if i == 0 then 0 else DevicesBefore(pools, i - 1) + |pools[i - 1].devices|
  }

  lemma {:induction false} DevicesBeforePrefix(pools: seq<PoolView>, i: nat, n: nat)
    requires i <= n <= |pools|
    ensures DevicesBefore(pools[..n], i) == DevicesBefore(pools, i)
    decreases i
  {
    if i > 0 { DevicesBeforePrefix(pools, i - 1, n); }
  }

  /** Every device has its place, pool by pool and in the order of its pool, and there are no others. */
  lemma {:induction false} SlotAt(pools: seq<PoolView>, i: nat, j: nat)
    requires i < |pools| && j < |pools[i].devices|
    ensures |Slots(pools)| == DevicesBefore(pools, |pools|) && DevicesBefore(pools, i) + j < |Slots(pools)|
    ensures Slots(pools)[DevicesBefore(pools, i) + j] == Slot(pools[i], pools[i].devices[j])
    decreases |pools|
  {
    var n := |pools| - 1;
    SlotCount(pools[..n]);
    DevicesBeforePrefix(pools, n, n);
    DevicesBeforePrefix(pools, i, n);
    if i < n { SlotAt(pools[..n], i, j); }
  }

  lemma {:induction false} SlotCount(pools: seq<PoolView>)
    ensures |Slots(pools)| == DevicesBefore(pools, |pools|)
    decreases |pools|
  {
    if pools != [] {
      var n := |pools| - 1;
      SlotCount(pools[..n]);
      DevicesBeforePrefix(pools, n, n);
    }
  }

  lemma {:induction false} SlotOf(pools: seq<PoolView>, k: nat) returns (i: nat, j: nat)
    requires k < |Slots(pools)|
    ensures i < |pools| && j < |pools[i].devices| && Slots(pools)[k] == Slot(pools[i], pools[i].devices[j])
    decreases |pools|
  {
    var n := |pools| - 1;
    if k < |Slots(pools[..n])| {
      i, j := SlotOf(pools[..n], k);
    } else {
      i, j := n, k - |Slots(pools[..n])|;
    }
  }

  function Charge(free: map<Key, int>, k: Key, need: int): map<Key, int> {
    if k in free then free[k := Saturate(free[k] - need)] else free
  }

  predicate Feasible(slot: Slot, disk: Disk, free: map<Key, int>)
    requires disk.gib < U64_END
  {
    && disk.Selector().Satisfies(slot.pool.labels) && slot.device.schedulable
    && NeedBytes(disk.gib) <= (if slot.Key() in free then free[slot.Key()] else 0)
  }

  function WrapI64(n: int): int {
    (n + I64_END) % U64_END - I64_END
  }

  function TieBreaker(backend: string, freeBytes: int, need: int): int {
    if backend == "lvm-linear" then WrapI64(-WrapI64(freeBytes - need)) else 0
  }

  /** Selector preference, same-cluster replica on the device, disk of this VM on the device, leftover. */
  function Rank(slot: Slot, disk: Disk, cluster: string, mine: set<Key>): (score: seq<int>)
    requires disk.gib < U64_END
    ensures |score| == 4
  {
    [disk.Selector().Score(slot.pool.labels),
     if cluster != "" && cluster in slot.device.replicated then -1 else 0,
     if slot.Key() in mine then -1 else 0,
     TieBreaker(slot.pool.backend, slot.device.freeBytes, NeedBytes(disk.gib))]
  }

  /** The preferred pool; then no replica of the cluster on the device; then no disk of this VM; then the tightest fit. */
  predicate Better(a: Slot, b: Slot, disk: Disk, cluster: string, mine: set<Key>)
    requires disk.gib < U64_END
  {
    var prefer := (s: Slot) => disk.Selector().Score(s.pool.labels);
    var shared := (s: Slot) => cluster != "" && cluster in s.device.replicated;
    var used := (s: Slot) => s.Key() in mine;
    || prefer(a) > prefer(b)
    || (prefer(a) == prefer(b) && (
          || (!shared(a) && shared(b))
          || (shared(a) == shared(b) && (
                || (!used(a) && used(b))
                || (used(a) == used(b) && Tighter(a, b, NeedBytes(disk.gib)))))))
  }

  /** The smaller leftover of linear volumes, compared in 64 bits; other backends count as leaving nothing. */
  predicate Tighter(a: Slot, b: Slot, need: int) {
    WrapI64(-Leftover(a, need)) > WrapI64(-Leftover(b, need))
  }

  function Leftover(s: Slot, need: int): int {
    if s.pool.backend == "lvm-linear" then s.device.freeBytes - need else 0
  }

  lemma WrapTwice(n: int)
    ensures WrapI64(-WrapI64(n)) == WrapI64(-n)
  {
    var m := n + I64_END;
    assert -WrapI64(n) + I64_END == -n + I64_END + (m / U64_END) * U64_END;
    WrapShift(-n + I64_END, m / U64_END);
  }

  lemma WrapShift(n: int, k: int)
    ensures (n + k * U64_END) % U64_END == n % U64_END
  {
    var q, r := n / U64_END, n % U64_END;
    assert n + k * U64_END == (q + k) * U64_END + r;
  }

  /** Leftovers of up to 2^63 bytes, so those of every disk below 2^63 GiB that fits, compare as numbers. */
  lemma TighterIsSmaller(a: Slot, b: Slot, need: int)
    requires -I64_END < Leftover(a, need) <= I64_END && -I64_END < Leftover(b, need) <= I64_END
    ensures Tighter(a, b, need) <==> Leftover(a, need) < Leftover(b, need)
  {
  }

  /** The order of the scores is the order of the criteria. */
  lemma RankOrder(a: Slot, b: Slot, disk: Disk, cluster: string, mine: set<Key>)
    requires disk.gib < U64_END
    ensures Less(Rank(b, disk, cluster, mine), Rank(a, disk, cluster, mine)) <==> Better(a, b, disk, cluster, mine)
  {
    LessOfFour(Rank(b, disk, cluster, mine), Rank(a, disk, cluster, mine));
    WrapTwice(a.device.freeBytes - NeedBytes(disk.gib));
    WrapTwice(b.device.freeBytes - NeedBytes(disk.gib));
  }

  /** Slot `i` is feasible, and the first of the best-ranked feasible slots. */
  ghost predicate Best(slots: seq<Slot>, disk: Disk, cluster: string, free: map<Key, int>, mine: set<Key>, i: nat)
    requires disk.gib < U64_END
  {
    && i < |slots| && Feasible(slots[i], disk, free)
    && forall j :: 0 <= j < |slots| && Feasible(slots[j], disk, free) ==>
         && !Less(Rank(slots[i], disk, cluster, mine), Rank(slots[j], disk, cluster, mine))
         && (j < i ==> Less(Rank(slots[j], disk, cluster, mine), Rank(slots[i], disk, cluster, mine)))
  }

  ghost predicate NoneFits(slots: seq<Slot>, disk: Disk, free: map<Key, int>)
    requires disk.gib < U64_END
  {
    forall i :: 0 <= i < |slots| ==> !Feasible(slots[i], disk, free)
  }

  // --- Greedy placement ---

  predicate Sized(disks: seq<Disk>) {
    forall d <- disks :: d.gib < U64_END
  }

  function InitialFree(slots: seq<Slot>): map<Key, int>
    decreases |slots|
  {
    if slots == [] then map[]
    else
      var last := slots[|slots| - 1];
      InitialFree(slots[..|slots| - 1])[last.Key() := last.device.freeBytes]
  }

  function FreeAfter(free: map<Key, int>, placed: seq<DiskPlacement>): map<Key, int>
    requires forall p <- placed :: p.gib < U64_END
    decreases |placed|
  {
    if placed == [] then free
    else
      var last := placed[|placed| - 1];
      Charge(FreeAfter(free, placed[..|placed| - 1]), last.key, NeedBytes(last.gib))
  }

  function KeysOf(placed: seq<DiskPlacement>): set<Key> {
    set p <- placed :: p.key
  }

  /** Placement `i` follows from the ones before it. */
  ghost predicate Follows(slots: seq<Slot>, cluster: string, disk: Disk, placed: seq<DiskPlacement>, i: nat)
    requires i < |placed| && disk.gib < U64_END && forall p <- placed :: p.gib < U64_END
  {
    && disk.Known()
    && exists k: nat :: Best(slots, disk, cluster, FreeAfter(InitialFree(slots), placed[..i]), KeysOf(placed[..i]), k)
                        && placed[i] == DiskPlacement(i, slots[k].Key(), disk.gib, disk.purpose)
  }

  ghost predicate Greedy(slots: seq<Slot>, cluster: string, disks: seq<Disk>, placed: seq<DiskPlacement>)
    requires Sized(disks)
  {
    && |placed| <= |disks| && (forall p <- placed :: p.gib < U64_END)
    && forall i :: 0 <= i < |placed| ==> Follows(slots, cluster, disks[i], placed, i)
  }

  /** The next disk is malformed or fits nowhere. */
  ghost predicate Stuck(slots: seq<Slot>, disks: seq<Disk>, placed: seq<DiskPlacement>)
    requires Sized(disks) && forall p <- placed :: p.gib < U64_END
  {
    && |placed| < |disks|
    && (!disks[|placed|].Known()
        || NoneFits(slots, disks[|placed|], FreeAfter(InitialFree(slots), placed)))
  }

  // --- The search ---

  /** `best` is the best of the slots seen, or none when none is feasible. */
  ghost predicate Standing(seen: seq<Slot>, disk: Disk, cluster: string, free: map<Key, int>, mine: set<Key>, best: Option<Slot>)
    requires disk.gib < U64_END
  {
    if best.None? then NoneFits(seen, disk, free)
    else exists i: nat :: Best(seen, disk, cluster, free, mine, i) && seen[i] == best.value
  }

  method ScanPool(pool: PoolView, disk: Disk, cluster: string, free: map<Key, int>, mine: set<Key>, best0: Option<Slot>,
                  ghost before: seq<Slot>)
    returns (best: Option<Slot>)
    requires disk.gib < U64_END && Standing(before, disk, cluster, free, mine, best0)
    ensures Standing(before + DeviceSlots(pool, |pool.devices|), disk, cluster, free, mine, best)
  {
    best := best0;
    ghost var at: nat := 0;
    if best.Some? { at :| Best(before, disk, cluster, free, mine, at) && before[at] == best.value; }
    if !disk.Selector().Satisfies(pool.labels) {
      SkipPool(before, pool, disk, cluster, free, mine, at);
      return;
    }
    ghost var seen := before;
    for j := 0 to |pool.devices|
      invariant seen == before + DeviceSlots(pool, j)
      invariant best.None? ==> NoneFits(seen, disk, free)
      invariant best.Some? ==> Best(seen, disk, cluster, free, mine, at) && seen[at] == best.value
    {
      var slot := Slot(pool, pool.devices[j]);
      if Feasible(slot, disk, free)
         && (best.None? || Less(Rank(best.value, disk, cluster, mine), Rank(slot, disk, cluster, mine)))
      {
        NewBest(seen, slot, disk, cluster, free, mine, best, at);
        best, at := Some(slot), |seen|;
      } else if best.Some? {
        KeepBest(seen, slot, disk, cluster, free, mine, at);
      }
      seen := seen + [slot];
    }
  }

  method PickOne(pools: seq<PoolView>, disk: Disk, cluster: string, free: map<Key, int>, mine: set<Key>)
    returns (best: Option<Slot>)
    requires disk.gib < U64_END
    ensures best.None? <==> NoneFits(Slots(pools), disk, free)
    ensures best.Some? ==> exists i: nat :: Best(Slots(pools), disk, cluster, free, mine, i) && Slots(pools)[i] == best.value
  {
    best := None;
    ghost var seen: seq<Slot> := [];
    for i := 0 to |pools|
      invariant seen == Slots(pools[..i]) && Standing(seen, disk, cluster, free, mine, best)
    {
      assert pools[..i + 1][..i] == pools[..i];
      best := ScanPool(pools[i], disk, cluster, free, mine, best, seen);
      seen := seen + DeviceSlots(pools[i], |pools[i].devices|);
    }
    assert pools[..|pools|] == pools;
  }

  lemma NewBest(seen: seq<Slot>, slot: Slot, disk: Disk, cluster: string, free: map<Key, int>, mine: set<Key>,
                best: Option<Slot>, at: nat)
    requires disk.gib < U64_END && Feasible(slot, disk, free)
    requires best.None? ==> NoneFits(seen, disk, free)
    requires best.Some? ==> Best(seen, disk, cluster, free, mine, at) && seen[at] == best.value
    requires best.Some? ==> Less(Rank(best.value, disk, cluster, mine), Rank(slot, disk, cluster, mine))
    ensures Best(seen + [slot], disk, cluster, free, mine, |seen|)
  {
    var all := seen + [slot];
    forall j | 0 <= j < |all| && Feasible(all[j], disk, free)
      ensures !Less(Rank(slot, disk, cluster, mine), Rank(all[j], disk, cluster, mine))
      ensures j < |seen| ==> Less(Rank(all[j], disk, cluster, mine), Rank(slot, disk, cluster, mine))
    {
      LessIsTotal(Rank(slot, disk, cluster, mine), Rank(all[j], disk, cluster, mine));
      if j < |seen| {
        assert all[j] == seen[j];
        AtMostThenLess(Rank(all[j], disk, cluster, mine), Rank(best.value, disk, cluster, mine), Rank(slot, disk, cluster, mine));
      }
    }
  }

  lemma KeepBest(seen: seq<Slot>, slot: Slot, disk: Disk, cluster: string, free: map<Key, int>, mine: set<Key>, at: nat)
    requires disk.gib < U64_END && Best(seen, disk, cluster, free, mine, at)
    requires Feasible(slot, disk, free) ==> !Less(Rank(seen[at], disk, cluster, mine), Rank(slot, disk, cluster, mine))
    ensures Best(seen + [slot], disk, cluster, free, mine, at) && (seen + [slot])[at] == seen[at]
  {
    var all := seen + [slot];
    forall j | 0 <= j < |all| && Feasible(all[j], disk, free)
      ensures !Less(Rank(all[at], disk, cluster, mine), Rank(all[j], disk, cluster, mine))
      ensures j < at ==> Less(Rank(all[j], disk, cluster, mine), Rank(all[at], disk, cluster, mine))
    {
      assert j < |seen| ==> all[j] == seen[j];
    }
  }

  /** A pool the selector rejects offers nothing. */
  lemma {:induction false} SkipPool(seen: seq<Slot>, pool: PoolView, disk: Disk, cluster: string, free: map<Key,
                                    int>, mine: set<Key>, at: nat)
    requires disk.gib < U64_END && !disk.Selector().Satisfies(pool.labels)
    ensures var all := seen + DeviceSlots(pool, |pool.devices|);
      && (NoneFits(seen, disk, free) <==> NoneFits(all, disk, free))
      && (Best(seen, disk, cluster, free, mine, at) ==> Best(all, disk, cluster, free, mine, at) && all[at] == seen[at])
  {
    var all := seen + DeviceSlots(pool, |pool.devices|);
    assert forall j :: 0 <= j < |all| ==> all[j] == if j < |seen| then seen[j] else Slot(pool, pool.devices[j - |seen|]);
    assert forall j :: 0 <= j < |seen| ==> seen[j] == all[j];
  }

  method InitialFreeBytes(pools: seq<PoolView>) returns (free: map<Key, int>)
    ensures free == InitialFree(Slots(pools))
  {
    free := map[];
    ghost var seen: seq<Slot> := [];
    for i := 0 to |pools|
      invariant seen == Slots(pools[..i]) && free == InitialFree(seen)
    {
      var pool := pools[i];
      assert pools[..i + 1][..i] == pools[..i];
      for j := 0 to |pool.devices|
        invariant seen == Slots(pools[..i]) + DeviceSlots(pool, j) && free == InitialFree(seen)
      {
        ghost var slot := Slot(pool, pool.devices[j]);
        assert (seen + [slot])[..|seen|] == seen;
        seen := seen + [slot];
        free := free[(pool.name, pool.devices[j].id) := pool.devices[j].freeBytes];
      }
    }
    assert pools[..|pools|] == pools;
  }

  lemma {:induction false} AppendPlacement(free: map<Key, int>, placed: seq<DiskPlacement>, next: DiskPlacement)
    requires next.gib < U64_END && forall p <- placed :: p.gib < U64_END
    ensures (forall p <- placed + [next] :: p.gib < U64_END)
    ensures FreeAfter(free, placed + [next]) == Charge(FreeAfter(free, placed), next.key, NeedBytes(next.gib))
    ensures KeysOf(placed + [next]) == KeysOf(placed) + {next.key}
  {
    assert (placed + [next])[..|placed|] == placed;
  }

  /** Placements for all disks, or none when some disk is malformed or fits nowhere after the ones before it. */
  method PickDiskPlacements(cluster: string, pools: seq<PoolView>, disks: seq<Disk>) returns (r: Option<seq<DiskPlacement>>)
    requires Sized(disks)
    ensures r.Some? ==> |r.value| == |disks| && Greedy(Slots(pools), cluster, disks, r.value)
    ensures r.None? ==> exists placed :: Greedy(Slots(pools), cluster, disks, placed) && Stuck(Slots(pools), disks, placed)
  {
    ghost var slots := Slots(pools);
    var free := InitialFreeBytes(pools);
    var mine: set<Key> := {};
    var placed: seq<DiskPlacement> := [];
    for i := 0 to |disks|
      invariant |placed| == i && Greedy(slots, cluster, disks, placed)
      invariant free == FreeAfter(InitialFree(slots), placed) && mine == KeysOf(placed)
    {
      var disk := disks[i];
      if !disk.Known() {
        assert Stuck(slots, disks, placed);
        return None;
      }
      var best := PickOne(pools, disk, cluster, free, mine);
      if best.None? {
        assert Stuck(slots, disks, placed);
        return None;
      }
      var next := DiskPlacement(i, best.value.Key(), disk.gib, disk.purpose);
      ExtendGreedy(slots, cluster, disks, placed, next, best.value);
      AppendPlacement(InitialFree(slots), placed, next);
      free := Charge(free, next.key, NeedBytes(disk.gib));
      mine := mine + {next.key};
      placed := placed + [next];
    }
    r := Some(placed);
  }

  lemma {:induction false} ExtendGreedy(slots: seq<Slot>, cluster: string, disks: seq<Disk>, placed: seq<DiskPlacement>,
                                        next: DiskPlacement, slot: Slot)
    requires Sized(disks) && Greedy(slots, cluster, disks, placed) && |placed| < |disks| && disks[|placed|].Known()
    requires next == DiskPlacement(|placed|, slot.Key(), disks[|placed|].gib, disks[|placed|].purpose)
    requires exists k: nat ::
      Best(slots, disks[|placed|], cluster, FreeAfter(InitialFree(slots), placed), KeysOf(placed), k) && slots[k] == slot
    ensures Greedy(slots, cluster, disks, placed + [next])
  {
    var grown := placed + [next];
    forall i | 0 <= i < |grown| ensures Follows(slots, cluster, disks[i], grown, i) {
      if i < |placed| {
        assert Follows(slots, cluster, disks[i], placed, i) && grown[..i] == placed[..i];
      } else {
        assert grown[..i] == placed;
      }
    }
  }

  // --- What greedy placement achieves ---

  /** The order and the rules leave no choice: greedy lists for the same disks agree as far as they go. */
  lemma {:induction false} GreedyIsUnique(slots: seq<Slot>, cluster: string, disks: seq<Disk>,
                                          p: seq<DiskPlacement>, q: seq<DiskPlacement>, n: nat)
    requires Sized(disks) && Greedy(slots, cluster, disks, p) && Greedy(slots, cluster, disks, q) && n <= |p| && n <= |q|
    ensures p[..n] == q[..n]
    decreases n
  {
    if n > 0 {
      GreedyIsUnique(slots, cluster, disks, p, q, n - 1);
      var i := n - 1;
      assert Follows(slots, cluster, disks[i], p, i) && Follows(slots, cluster, disks[i], q, i);
      assert p[..n] == p[..i] + [p[i]] && q[..n] == q[..i] + [q[i]];
    }
  }

  /** So there are placements for all disks exactly when the search finds them. */
  lemma FailsOnlyWhenStuck(slots: seq<Slot>, cluster: string, disks: seq<Disk>,
                           full: seq<DiskPlacement>, part: seq<DiskPlacement>)
    requires Sized(disks) && Greedy(slots, cluster, disks, full) && |full| == |disks| && Greedy(slots, cluster, disks, part)
    ensures !Stuck(slots, disks, part)
  {
    if |part| < |disks| {
      GreedyIsUnique(slots, cluster, disks, full, part, |part|);
      assert part[..|part|] == part;
      assert Follows(slots, cluster, disks[|part|], full, |part|);
    }
  }

  /** One well-formed disk is placed exactly when some device can take it. */
  lemma {:induction false} SingleDiskFailsIff(pools: seq<PoolView>, cluster: string, disk: Disk)
    requires disk.gib < U64_END && disk.Known()
    ensures (exists placed :: Greedy(Slots(pools), cluster, [disk], placed) && Stuck(Slots(pools), [disk], placed))
            <==> NoneFits(Slots(pools), disk, InitialFree(Slots(pools)))
  {
    var slots := Slots(pools);
    if NoneFits(slots, disk, InitialFree(slots)) {
      assert Greedy(slots, cluster, [disk], []) && Stuck(slots, [disk], []);
    }
    forall placed | Greedy(slots, cluster, [disk], placed) && Stuck(slots, [disk], placed)
      ensures NoneFits(slots, disk, InitialFree(slots))
    {
      assert placed == [];
    }
  }

  lemma {:induction false} BestExists(slots: seq<Slot>, disk: Disk, cluster: string, free: map<Key, int>, mine: set<Key>)
    requires disk.gib < U64_END
    ensures NoneFits(slots, disk, free) || exists i: nat :: Best(slots, disk, cluster, free, mine, i)
    decreases |slots|
  {
    if slots != [] {
      var init, last := slots[..|slots| - 1], slots[|slots| - 1];
      BestExists(init, disk, cluster, free, mine);
      assert slots == init + [last];
      if NoneFits(init, disk, free) {
        if Feasible(last, disk, free) { NewBest(init, last, disk, cluster, free, mine, None, 0); }
      } else {
        var at: nat :| Best(init, disk, cluster, free, mine, at);
        if Feasible(last, disk, free) && Less(Rank(init[at], disk, cluster, mine), Rank(last, disk, cluster, mine)) {
          NewBest(init, last, disk, cluster, free, mine, Some(init[at]), at);
        } else {
          KeepBest(init, last, disk, cluster, free, mine, at);
        }
      }
    }
  }

  /** A device takes the disk: its pool has a wanted value for every wanted label, it can be scheduled, it has the bytes. */
  ghost predicate Takes(pool: PoolView, device: Device, disk: Disk)
    requires disk.gib < U64_END
  {
    && (disk.selector.Some? ==>
          forall r <- disk.selector.value.requirements :: r.key in pool.labels && pool.labels[r.key] in r.values)
    && device.schedulable && NeedBytes(disk.gib) <= device.freeBytes
  }

  ghost predicate DistinctDevices(pools: seq<PoolView>) {
    forall i, j :: 0 <= i < |Slots(pools)| && 0 <= j < |Slots(pools)| && i != j ==> Slots(pools)[i].Key() != Slots(pools)[j].Key()
  }

  lemma {:induction false} FeasibleIsTakes(pools: seq<PoolView>, k: nat, disk: Disk)
    requires disk.gib < U64_END && k < |Slots(pools)| && DistinctDevices(pools)
    ensures Feasible(Slots(pools)[k], disk, InitialFree(Slots(pools))) <==>
      Takes(Slots(pools)[k].pool, Slots(pools)[k].device, disk)
  {
    InitialFreeOf(Slots(pools), k);
  }

  ghost predicate HasPlace(slots: seq<Slot>, cluster: string, disk: Disk)
    requires disk.gib < U64_END
  {
    exists placed :: |placed| == 1 && Greedy(slots, cluster, [disk], placed)
  }

  lemma {:induction false} HasPlaceIff(slots: seq<Slot>, cluster: string, disk: Disk)
    requires disk.gib < U64_END
    ensures HasPlace(slots, cluster, disk) <==> disk.Known() && !NoneFits(slots, disk, InitialFree(slots))
  {
    var free := InitialFree(slots);
    assert FreeAfter(free, []) == free && KeysOf([]) == {};
    if placed :| |placed| == 1 && Greedy(slots, cluster, [disk], placed) {
      assert Follows(slots, cluster, [disk][0], placed, 0) && placed[..0] == [];
    }
    if disk.Known() && !NoneFits(slots, disk, free) {
      BestExists(slots, disk, cluster, free, {});
      var k: nat :| Best(slots, disk, cluster, free, {}, k);
      var next := DiskPlacement(0, slots[k].Key(), disk.gib, disk.purpose);
      ExtendGreedy(slots, cluster, [disk], [], next, slots[k]);
      assert |[] + [next]| == 1;
    }
  }

  /** One disk of a known purpose has a place exactly when some device of some pool takes it; a device is listed once. */
  lemma {:induction false} SingleDiskFitsIff(pools: seq<PoolView>, cluster: string, disk: Disk)
    requires disk.gib < U64_END && DistinctDevices(pools)
    ensures HasPlace(Slots(pools), cluster, disk) <==>
      disk.Known() && exists i, j :: 0 <= i < |pools| && 0 <= j < |pools[i].devices| && Takes(pools[i], pools[i].devices[j], disk)
  {
    var slots := Slots(pools);
    var free := InitialFree(slots);
    HasPlaceIff(slots, cluster, disk);
    if !NoneFits(slots, disk, free) {
      var k :| 0 <= k < |slots| && Feasible(slots[k], disk, free);
      FeasibleIsTakes(pools, k, disk);
      var i, j := SlotOf(pools, k);
    }
    if i, j :| 0 <= i < |pools| && 0 <= j < |pools[i].devices| && Takes(pools[i], pools[i].devices[j], disk) {
      SlotAt(pools, i, j);
      FeasibleIsTakes(pools, DevicesBefore(pools, i) + j, disk);
    }
  }

  /** What the placements charge to device `k`. */
  function Charged(placed: seq<DiskPlacement>, k: Key): int
    requires forall p <- placed :: p.gib < U64_END
    decreases |placed|
  {
    if placed == [] then 0
    else
      var last := placed[|placed| - 1];
      Charged(placed[..|placed| - 1], k) + if last.key == k then NeedBytes(last.gib) else 0
  }

  /** The device of placement `i`: it matches the selector, can be scheduled and has room for the disk at its turn. */
  lemma PlacementFits(slots: seq<Slot>, cluster: string, disks: seq<Disk>, placed: seq<DiskPlacement>, i: nat) returns (k: nat)
    requires Sized(disks) && Greedy(slots, cluster, disks, placed) && i < |placed|
    ensures k < |slots| && placed[i] == DiskPlacement(i, slots[k].Key(), disks[i].gib, disks[i].purpose)
    ensures Best(slots, disks[i], cluster, FreeAfter(InitialFree(slots), placed[..i]), KeysOf(placed[..i]), k)
    ensures disks[i].Selector().Satisfies(slots[k].pool.labels) && slots[k].device.schedulable
    ensures var free := FreeAfter(InitialFree(slots), placed[..i]);
      placed[i].key in free && NeedBytes(disks[i].gib) <= free[placed[i].key]
  {
    assert Follows(slots, cluster, disks[i], placed, i);
    k :| Best(slots, disks[i], cluster, FreeAfter(InitialFree(slots), placed[..i]), KeysOf(placed[..i]), k)
         && placed[i] == DiskPlacement(i, slots[k].Key(), disks[i].gib, disks[i].purpose);
    FreeKeys(InitialFree(slots), placed[..i]);
    InitialKeys(slots, k);
  }

  lemma {:induction false} InitialKeys(slots: seq<Slot>, k: nat)
    requires k < |slots|
    ensures slots[k].Key() in InitialFree(slots)
    decreases |slots|
  {
    if k < |slots| - 1 { InitialKeys(slots[..|slots| - 1], k); }
  }

  lemma {:induction false} FreeKeys(free: map<Key, int>, placed: seq<DiskPlacement>)
    requires forall p <- placed :: p.gib < U64_END
    ensures FreeAfter(free, placed).Keys == free.Keys
    decreases |placed|
  {
    if placed != [] { FreeKeys(free, placed[..|placed| - 1]); }
  }

  /** Sizes below 2^63 GiB and free counts of 64 bits. */
  ghost predicate Ordinary(slots: seq<Slot>, disks: seq<Disk>) {
    && (forall d <- disks :: d.gib < I64_END)
    && (forall i :: 0 <= i < |slots| ==> slots[i].device.freeBytes < I64_END)
  }

  lemma {:induction false} InitialBound(slots: seq<Slot>, k: Key)
    requires (forall i :: 0 <= i < |slots| ==> slots[i].device.freeBytes < I64_END) && k in InitialFree(slots)
    ensures InitialFree(slots)[k] < I64_END
    decreases |slots|
  {
    var last := slots[|slots| - 1];
    if last.Key() != k { InitialBound(slots[..|slots| - 1], k); }
  }

  /** No device is charged beyond its free bytes, however many disks it gets, and the running count is exact. */
  lemma {:induction false} NeverOvercharged(slots: seq<Slot>, cluster: string, disks: seq<Disk>, placed: seq<DiskPlacement>,
                                            n: nat, k: Key)
    requires Sized(disks) && Greedy(slots, cluster, disks, placed) && Ordinary(slots, disks)
    requires n <= |placed| && k in InitialFree(slots)
    ensures k in FreeAfter(InitialFree(slots), placed[..n])
    ensures FreeAfter(InitialFree(slots), placed[..n])[k] == InitialFree(slots)[k] - Charged(placed[..n], k)
    ensures Charged(placed[..n], k) >= 0 && (k in KeysOf(placed[..n]) ==> Charged(placed[..n], k) <= InitialFree(slots)[k])
    decreases n
  {
    if n == 0 {
      assert placed[..0] == [];
    } else {
      var i := n - 1;
      NeverOvercharged(slots, cluster, disks, placed, i, k);
      assert placed[..n][..i] == placed[..i];
      assert KeysOf(placed[..n]) == KeysOf(placed[..i]) + {placed[i].key} by { assert placed[..n] == placed[..i] + [placed[i]]; }
      var _ := PlacementFits(slots, cluster, disks, placed, i);
      if placed[i].key == k { InitialBound(slots, k); }
    }
  }

  /** The sizes of the disks on device `k`, in full. */
  function SizeOn(placed: seq<DiskPlacement>, k: Key): nat
    decreases |placed|
  {
    if placed == [] then 0
    else
      var last := placed[|placed| - 1];
      SizeOn(placed[..|placed| - 1], k) + if last.key == k then last.gib else 0
  }

  ghost predicate Countable(placed: seq<DiskPlacement>, k: Key) {
    forall p <- placed :: p.key == k ==> p.gib < GIB_END
  }

  lemma {:induction false} ChargedIsSize(placed: seq<DiskPlacement>, k: Key)
    requires (forall p <- placed :: p.gib < U64_END) && Countable(placed, k)
    ensures Charged(placed, k) == SizeOn(placed, k) * GIB
    decreases |placed|
  {
    if placed != [] {
      var last := placed[|placed| - 1];
      ChargedIsSize(placed[..|placed| - 1], k);
      assert last in placed;
    }
  }

  lemma {:induction false} OneOfSize(placed: seq<DiskPlacement>, k: Key, p: DiskPlacement)
    requires p in placed && p.key == k
    ensures SizeOn(placed, k) >= p.gib
    decreases |placed|
  {
    var rest, last := placed[..|placed| - 1], placed[|placed| - 1];
    if p != last {
      assert placed == rest + [last];
      OneOfSize(rest, k, p);
    }
  }

  /** The disks on a device are within its free bytes in full exactly when each of them is below 2^33 GiB. */
  lemma {:induction false} SizesFitIff(slots: seq<Slot>, cluster: string, disks: seq<Disk>,
                                       placed: seq<DiskPlacement>, k: Key)
    requires Sized(disks) && Greedy(slots, cluster, disks, placed) && Ordinary(slots, disks)
    requires k in InitialFree(slots) && k in KeysOf(placed)
    ensures SizeOn(placed, k) * GIB <= InitialFree(slots)[k] <==> Countable(placed, k)
  {
    assert placed[..|placed|] == placed;
    NeverOvercharged(slots, cluster, disks, placed, |placed|, k);
    InitialBound(slots, k);
    if Countable(placed, k) {
      ChargedIsSize(placed, k);
    } else {
      var p :| p in placed && p.key == k && p.gib >= GIB_END;
      OneOfSize(placed, k, p);
    }
  }

  lemma {:induction false} InitialFreeOf(slots: seq<Slot>, i: nat)
    requires i < |slots| && forall j :: 0 <= j < |slots| && j != i ==> slots[j].Key() != slots[i].Key()
    ensures slots[i].Key() in InitialFree(slots) && InitialFree(slots)[slots[i].Key()] == slots[i].device.freeBytes
    decreases |slots|
  {
    if i < |slots| - 1 { InitialFreeOf(slots[..|slots| - 1], i); }
  }

  /** A device of this VM is used again only when every feasible device of the same standing is in use by it. */
  lemma ReuseOnlyWhenAllUsed(slots: seq<Slot>, disk: Disk, cluster: string, free: map<Key, int>, mine: set<Key>, k: nat, j: nat)
    requires disk.gib < U64_END && Best(slots, disk, cluster, free, mine, k) && slots[k].Key() in mine
    requires j < |slots| && Feasible(slots[j], disk, free)
    requires var best, other := Rank(slots[k], disk, cluster, mine), Rank(slots[j], disk, cluster, mine);
      best[0] == other[0] && best[1] == other[1]
    ensures slots[j].Key() in mine
  {
    var best, other := Rank(slots[k], disk, cluster, mine), Rank(slots[j], disk, cluster, mine);
    LessOfFour(best, other);
  }

  /**
   In a greedy list: a disk goes to a device that an earlier disk of the VM has
   only when every device that could take it, of a pool as much preferred and as
   free of the cluster's replicas, has an earlier disk too.
   */
  lemma {:induction false} SpreadOverDevices(slots: seq<Slot>, cluster: string, disks: seq<Disk>, placed: seq<DiskPlacement>,
                                             i: nat, m: nat, k: nat, j: nat)
    requires Sized(disks) && Greedy(slots, cluster, disks, placed) && m < i < |placed| && placed[m].key == placed[i].key
    requires k < |slots| && j < |slots| && slots[k].Key() == placed[i].key
    requires Best(slots, disks[i], cluster, FreeAfter(InitialFree(slots), placed[..i]), KeysOf(placed[..i]), k)
    requires Feasible(slots[j], disks[i], FreeAfter(InitialFree(slots), placed[..i]))
    requires disks[i].Selector().Score(slots[j].pool.labels) == disks[i].Selector().Score(slots[k].pool.labels)
    requires cluster != "" ==> (cluster in slots[j].device.replicated <==> cluster in slots[k].device.replicated)
    ensures exists n :: 0 <= n < i && placed[n].key == slots[j].Key()
  {
    var before := placed[..i];
    assert before[m] in before;
    ReuseOnlyWhenAllUsed(slots, disks[i], cluster, FreeAfter(InitialFree(slots), before), KeysOf(before), k, j);
    var p :| p in before && p.key == slots[j].Key();
  }

  /** From 2^63 GiB on the need is negative: the disk fits a device without a free byte. */
  lemma HugeDiskFitsFullDevice(slot: Slot, disk: Disk, free: map<Key, int>)
    requires I64_END <= disk.gib < U64_END && slot.device.schedulable && disk.Selector().Satisfies(slot.pool.labels)
    requires slot.Key() in free && free[slot.Key()] == 0
    ensures Feasible(slot, disk, free) && Charge(free, slot.Key(), NeedBytes(disk.gib))[slot.Key()] > 0
  {
  }

  predicate Huge(disk: Disk) {
    I64_END <= disk.gib < U64_END && disk.Known() && disk.selector.None?
  }

  /** So a full device takes any number of such disks. */
  lemma {:induction false} HugeDisksAreTaken(slot: Slot, cluster: string, disks: seq<Disk>, n: nat)
    returns (placed: seq<DiskPlacement>)
    requires slot.device.schedulable && slot.device.freeBytes >= 0 && n <= |disks| && forall d <- disks :: Huge(d)
    ensures |placed| == n && Sized(disks) && Greedy([slot], cluster, disks, placed)
    ensures var free := FreeAfter(InitialFree([slot]), placed); slot.Key() in free && free[slot.Key()] >= 0
    decreases n
  {
    assert Sized(disks);
    placed := [];
    if n == 0 {
      InitialKeys([slot], 0);
    } else {
      placed := HugeDisksAreTaken(slot, cluster, disks, n - 1);
      var disk := disks[n - 1];
      var free, next := FreeAfter(InitialFree([slot]), placed), DiskPlacement(n - 1, slot.Key(), disk.gib, disk.purpose);
      var rank := Rank(slot, disk, cluster, KeysOf(placed));
      LessIsTotal(rank, rank);
      assert Huge(disk) && Best([slot], disk, cluster, free, KeysOf(placed), 0);
      ExtendGreedy([slot], cluster, disks, placed, next, slot);
      AppendPlacement(InitialFree([slot]), placed, next);
      placed := placed + [next];
    }
  }
}
