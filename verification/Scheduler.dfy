/**
 Choosing a host for a VM.

 Hosts that pass every filter are scored field by field, and the last of the
 best wins. The filters work on whole GiB in 32 bits, the insert that commits
 the decision on bytes; the lemmas say when the two agree.
 */
module Scheduler {
  import opened Naming
  import opened Tables
  import opened Scoring
  import opened Disks

  datatype Usage = Usage(cpu: nat, memory: nat, rootfsGib: nat, dataGib: nat, pcis: set<string>, vmsByCluster: map<string, nat>) {
    function Of(r: Resource): nat {
      match r
      case Cpu => cpu
      case Memory => memory
      case Rootfs => rootfsGib
      case Data => dataGib
    }
  }

  const IDLE := Usage(0, 0, 0, 0, {}, map[])

  datatype Request = Request(cluster: string, cpu: nat, memory: nat, rootfsGib: nat, dataGib: nat,
                             gpus: nat, minGroup: nat, placement: Placement, disks: seq<Disk>)
  {
    function Of(r: Resource): nat {
      match r
      case Cpu => cpu
      case Memory => memory
      case Rootfs => rootfsGib
      case Data => dataGib
    }
  }

  datatype HostRow = HostRow(id: string, row: Host)
  datatype Decision = Decision(host: string, gpus: seq<Gpu>, disks: seq<DiskPlacement>)
  datatype SchedulerError = NoCapacity | UnsatisfiedRequirements
  datatype Outcome = Chosen(decision: Decision) | Refused(reason: SchedulerError)

  // --- Usage snapshots ---

  function MateCount(u: Usage, c: string): nat {
    if c in u.vmsByCluster then u.vmsByCluster[c] else 0
  }

  function VmsOf(vms: map<string, Vm>, h: string, c: string): set<string> {
    set v | v in vms && vms[v].host == h && vms[v].cluster == c
  }

  function ClaimsOn(gpus: set<GpuClaim>, h: string): set<string> {
    set g | g in gpus && g.host == h :: g.pci
  }

  /** What one host's VMs and claims amount to, the sums, the claims and the counts read in three states. */
  ghost predicate AccountsIn(sumsAt: Tables, claimsAt: Tables, countsAt: Tables, h: string, u: Usage) {
    && (forall r :: u.Of(r) == Used(sumsAt.vms, h, r))
    && u.pcis == ClaimsOn(claimsAt.gpus, h)
    && (forall c :: MateCount(u, c) == |VmsOf(countsAt.vms, h, c)|)
  }

  /** An exact snapshot: all three are of one state. */
  ghost predicate Accounts(s: Tables, h: string, u: Usage) {
    AccountsIn(s, s, s, h, u)
  }

  // --- Capacity as the scheduler sees it ---

  /** Whole units a host offers: scaled CPUs, MiB, GiB. */
  function Units(host: Host, ratio: Ratio, r: Resource): nat
    requires ratio.Valid()
  {
    Total(host, ratio, r) / Unit(r)
  }

  /** What is left, at least nothing, cut to 32 bits. */
  function Available(host: Host, usage: Usage, ratio: Ratio, r: Resource): nat
    requires ratio.Valid()
  {
    (if usage.Of(r) <= Units(host, ratio, r) then Units(host, ratio, r) - usage.Of(r) else 0) % U32_END
  }

  predicate Fits(host: Host, usage: Usage, ratio: Ratio, req: Request)
    requires ratio.Valid()
  {
    && Available(host, usage, ratio, Cpu) >= req.cpu && Available(host, usage, ratio, Memory) >= req.memory
    && Available(host, usage, ratio, Rootfs) >= req.rootfsGib && Available(host, usage, ratio, Data) >= req.dataGib
  }

  /** The byte comparison of the insert, for one resource. */
  predicate Room(host: Host, usage: Usage, ratio: Ratio, req: Request, r: Resource)
    requires ratio.Valid()
  {
    Total(host, ratio, r) - usage.Of(r) * Unit(r) >= req.Of(r) * Unit(r)
  }

  /** Comparing bytes is comparing whole units, rounded down. */
  lemma BytesAndUnits(host: Host, usage: Usage, ratio: Ratio, req: Request, r: Resource)
    requires ratio.Valid()
    ensures Room(host, usage, ratio, req, r) <==> Units(host, ratio, r) - usage.Of(r) >= req.Of(r)
  {
    var bytes, used, ask := Total(host, ratio, r), usage.Of(r), req.Of(r);
    if Unit(r) == GIB {
      assert bytes - used * GIB >= ask * GIB <==> bytes / GIB >= used + ask;
    }
  }

  lemma Leftover(host: Host, usage: Usage, ratio: Ratio, r: Resource)
    requires ratio.Valid() && usage.Of(r) <= Units(host, ratio, r)
    ensures Available(host, usage, ratio, r) <= Units(host, ratio, r) - usage.Of(r)
    ensures Units(host, ratio, r) - usage.Of(r) < U32_END ==>
      Available(host, usage, ratio, r) == Units(host, ratio, r) - usage.Of(r)
  {
  }

  /** A host that fits is admitted exactly in the resources it has not already overdrawn. */
  lemma FittingHostIsAdmittedIff(host: Host, usage: Usage, ratio: Ratio, req: Request, r: Resource)
    requires ratio.Valid() && Fits(host, usage, ratio, req)
    ensures Room(host, usage, ratio, req, r) <==> usage.Of(r) <= Units(host, ratio, r)
  {
    BytesAndUnits(host, usage, ratio, req, r);
    if usage.Of(r) <= Units(host, ratio, r) { Leftover(host, usage, ratio, r); }
  }

  ghost predicate Admitted(host: Host, usage: Usage, ratio: Ratio, req: Request)
    requires ratio.Valid()
  {
    forall r :: Room(host, usage, ratio, req, r)
  }

  /** Every amount of a request is a 32-bit field. */
  ghost predicate Narrow(req: Request) {
    forall r :: req.Of(r) < U32_END
  }

  lemma FitsAll(host: Host, usage: Usage, ratio: Ratio, req: Request)
    requires ratio.Valid()
    ensures Fits(host, usage, ratio, req) <==> forall r :: Available(host, usage, ratio, r) >= req.Of(r)
  {
    if forall r :: Available(host, usage, ratio, r) >= req.Of(r) {
      assert Available(host, usage, ratio, Cpu) >= req.Of(Cpu) && Available(host, usage, ratio, Memory) >= req.Of(Memory);
      assert Available(host, usage, ratio, Rootfs) >= req.Of(Rootfs) && Available(host, usage, ratio, Data) >= req.Of(Data);
    }
  }

  /** The other way: a host the insert would admit fits exactly when the low 32 bits of what is left cover the request. */
  lemma AdmittedHostFitsIff(host: Host, usage: Usage, ratio: Ratio, req: Request)
    requires ratio.Valid() && Admitted(host, usage, ratio, req)
    ensures Fits(host, usage, ratio, req) <==>
      forall r :: (Units(host, ratio, r) - usage.Of(r)) % U32_END >= req.Of(r)
  {
    FitsAll(host, usage, ratio, req);
    forall r ensures Available(host, usage, ratio, r) == (Units(host, ratio, r) - usage.Of(r)) % U32_END {
      assert Room(host, usage, ratio, req, r);
      BytesAndUnits(host, usage, ratio, req, r);
    }
  }

  /** What is left of the resource loses nothing in 32 bits, or nothing a request could ask for. */
  predicate CutIsHarmless(host: Host, usage: Usage, ratio: Ratio, r: Resource)
    requires ratio.Valid() && usage.Of(r) <= Units(host, ratio, r)
  {
    var left := Units(host, ratio, r) - usage.Of(r);
    left < U32_END || left % U32_END == U32_END - 1
  }

  ghost predicate Overdrawn(host: Host, usage: Usage, ratio: Ratio)
    requires ratio.Valid()
  {
    exists r :: usage.Of(r) > Units(host, ratio, r)
  }

  /** The request that asks for all of one resource a 32-bit field can say, and for nothing else. */
  function LargestAsk(r: Resource): Request {
    var n := U32_END - 1;
    Request("", if r == Cpu then n else 0, if r == Memory then n else 0, if r == Rootfs then n else 0,
            if r == Data then n else 0, 0, 0, ANYWHERE, [])
  }

  /**
   What a host can be trusted with: every request the insert would admit fits
   exactly when, unless the host is overdrawn and admits none, each leftover is
   below 2^32 or is 2^32 - 1 modulo 2^32.
   */
  lemma EveryAdmittedRequestFitsIff(host: Host, usage: Usage, ratio: Ratio)
    requires ratio.Valid()
    ensures (forall req :: Narrow(req) && Admitted(host, usage, ratio, req) ==> Fits(host, usage, ratio, req))
            <==> Overdrawn(host, usage, ratio) || forall r :: CutIsHarmless(host, usage, ratio, r)
  {
    if Overdrawn(host, usage, ratio) {
      var r :| usage.Of(r) > Units(host, ratio, r);
      forall req ensures !Admitted(host, usage, ratio, req) {
        BytesAndUnits(host, usage, ratio, req, r);
      }
    } else if r :| !CutIsHarmless(host, usage, ratio, r) {
      HarmfulCut(host, usage, ratio, r);
    } else {
      forall req | Narrow(req) && Admitted(host, usage, ratio, req) ensures Fits(host, usage, ratio, req) {
        HarmlessCutsFit(host, usage, ratio, req);
      }
    }
  }

  lemma HarmlessCutsFit(host: Host, usage: Usage, ratio: Ratio, req: Request)
    requires ratio.Valid() && Narrow(req) && Admitted(host, usage, ratio, req)
    requires forall r :: usage.Of(r) <= Units(host, ratio, r) && CutIsHarmless(host, usage, ratio, r)
    ensures Fits(host, usage, ratio, req)
  {
    AdmittedHostFitsIff(host, usage, ratio, req);
    forall r ensures (Units(host, ratio, r) - usage.Of(r)) % U32_END >= req.Of(r) {
      assert Room(host, usage, ratio, req, r) && CutIsHarmless(host, usage, ratio, r) && req.Of(r) < U32_END;
      BytesAndUnits(host, usage, ratio, req, r);
    }
  }

  lemma HarmfulCut(host: Host, usage: Usage, ratio: Ratio, r: Resource)
    requires ratio.Valid() && !Overdrawn(host, usage, ratio) && usage.Of(r) <= Units(host, ratio, r)
    requires !CutIsHarmless(host, usage, ratio, r)
    ensures Narrow(LargestAsk(r)) && Admitted(host, usage, ratio, LargestAsk(r)) && !Fits(host, usage, ratio, LargestAsk(r))
  {
    var req := LargestAsk(r);
    forall q ensures Room(host, usage, ratio, req, q) {
      BytesAndUnits(host, usage, ratio, req, q);
      assert usage.Of(q) <= Units(host, ratio, q);
    }
    AdmittedHostFitsIff(host, usage, ratio, req);
    assert (Units(host, ratio, r) - usage.Of(r)) % U32_END < req.Of(r);
  }

  /** An idle host with 2^32 MiB looks empty to the scheduler, and the insert would admit the VM. */
  lemma WrapHidesMemory(host: Host, ratio: Ratio, req: Request)
    requires ratio.Valid() && host.memory == U32_END && 0 < req.memory < U32_END
    ensures Room(host, IDLE, ratio, req, Memory) && !Fits(host, IDLE, ratio, req)
  {
  }

  // --- GPUs ---

  function InGroup(gpus: seq<Gpu>, g: nat): seq<Gpu>
    decreases |gpus|
  {
    if gpus == [] then []
    else
      var last := gpus[|gpus| - 1];
      InGroup(gpus[..|gpus| - 1], g) + if last.group == g then [last] else []
  }

  /** A real NVLink group with enough free GPUs. */
  predicate GoodGroup(free: seq<Gpu>, count: nat, minGroup: nat, g: nat) {
    g != 0 && |InGroup(free, g)| >= count && |InGroup(free, g)| >= minGroup
  }

  ghost predicate HasGoodGroup(free: seq<Gpu>, count: nat, minGroup: nat) {
    exists g: nat :: GoodGroup(free, count, minGroup, g)
  }

  /** 3 with all GPUs in one group, 1 without, 0 when there are too few. */
  ghost function TopologyScore(free: seq<Gpu>, count: nat, minGroup: nat): int {
    if HasGoodGroup(free, count, minGroup) then 3 else if minGroup == 0 && |free| >= count then 1 else 0
  }

  /** The selection is the first GPUs of a good group, or of the host when none is asked for and none is there. */
  ghost predicate IsSelection(free: seq<Gpu>, count: nat, minGroup: nat, selected: seq<Gpu>) {
    if HasGoodGroup(free, count, minGroup)
    then exists g: nat :: GoodGroup(free, count, minGroup, g) && selected == InGroup(free, g)[..count]
    else selected == if minGroup == 0 && |free| >= count then free[..count] else []
  }

  method GroupGpus(gpus: seq<Gpu>) returns (groups: map<nat, seq<Gpu>>)
    ensures forall g: nat :: InGroup(gpus, g) == if g in groups then groups[g] else []
  {
    groups := map[];
    for i := 0 to |gpus|
      invariant forall g: nat :: InGroup(gpus[..i], g) == if g in groups then groups[g] else []
    {
      var gpu := gpus[i];
      assert gpus[..i + 1][..i] == gpus[..i];
      var before := if gpu.group in groups then groups[gpu.group] else [];
      groups := groups[gpu.group := before + [gpu]];
    }
    assert gpus[..|gpus|] == gpus;
  }

  method GpuTopologyScore(free: seq<Gpu>, count: nat, minGroup: nat) returns (score: int, selected: seq<Gpu>)
    requires count > 0
    ensures score == TopologyScore(free, count, minGroup) && IsSelection(free, count, minGroup, selected)
  {
    var groups := GroupGpus(free);
    var rest := groups.Keys;
    while rest != {}
      invariant rest <= groups.Keys && forall g :: g in groups && g !in rest ==> !GoodGroup(free, count, minGroup, g)
      decreases |rest|
    {
      var g :| g in rest;
      rest := rest - {g};
      assert groups[g] == InGroup(free, g);
      if g != 0 && |groups[g]| >= count && |groups[g]| >= minGroup {
        assert GoodGroup(free, count, minGroup, g);
        return 3, groups[g][..count];
      }
    }
    assert !HasGoodGroup(free, count, minGroup);
    if minGroup == 0 && |free| >= count { return 1, free[..count]; }
    score, selected := 0, [];
  }

  // --- Hosts ---

  /** What the scheduler reads: usage, storage and same-cluster replicas by host, absent when there are none. */
  datatype Fleet = Fleet(usage: map<string, Usage>, pools: map<string, seq<PoolView>>, replicas: map<string, nat>) {
    function UsageOf(h: string): Usage { if h in usage then usage[h] else IDLE }
    function PoolsOf(h: string): seq<PoolView> { if h in pools then pools[h] else [] }
    function ReplicasOf(h: string): nat { if h in replicas then replicas[h] else 0 }
  }

  function FreeGpus(inventory: seq<Gpu>, taken: set<string>): seq<Gpu>
    decreases |inventory|
  {
    if inventory == [] then []
    else
      var last := inventory[|inventory| - 1];
      FreeGpus(inventory[..|inventory| - 1], taken) + if last.pci in taken then [] else [last]
  }

  /** `out` is the elements of `all` at the places `at`, in order. */
  ghost predicate Picks(all: seq<Gpu>, at: seq<nat>, out: seq<Gpu>) {
    && |at| == |out| && (forall k :: 0 <= k < |at| ==> at[k] < |all| && out[k] == all[at[k]])
    && forall j, k :: 0 <= j < k < |at| ==> at[j] < at[k]
  }

  lemma PicksOneMore(all: seq<Gpu>, at: seq<nat>, out: seq<Gpu>)
    requires all != [] && Picks(all[..|all| - 1], at, out)
    ensures Picks(all, at, out) && Picks(all, at + [|all| - 1], out + [all[|all| - 1]])
  {
  }

  /** The free GPUs are those of the inventory that are not taken, all of them, in its order. */
  lemma {:induction false} FreeGpusAreUntaken(inventory: seq<Gpu>, taken: set<string>) returns (at: seq<nat>)
    ensures Picks(inventory, at, FreeGpus(inventory, taken))
    ensures forall i: nat :: i in at <==> i < |inventory| && inventory[i].pci !in taken
    decreases |inventory|
  {
    at := [];
    if inventory != [] {
      var n := |inventory| - 1;
      at := FreeGpusAreUntaken(inventory[..n], taken);
      PicksOneMore(inventory, at, FreeGpus(inventory[..n], taken));
      assert FreeGpus(inventory[..n], taken) + [] == FreeGpus(inventory[..n], taken);
      if inventory[n].pci !in taken { at := at + [n]; }
    }
  }

  /** The GPUs of a group are those with its number, all of them, in their order. */
  lemma {:induction false} GroupIsAll(gpus: seq<Gpu>, g: nat) returns (at: seq<nat>)
    ensures Picks(gpus, at, InGroup(gpus, g))
    ensures forall i: nat :: i in at <==> i < |gpus| && gpus[i].group == g
    decreases |gpus|
  {
    at := [];
    if gpus != [] {
      var n := |gpus| - 1;
      at := GroupIsAll(gpus[..n], g);
      PicksOneMore(gpus, at, InGroup(gpus[..n], g));
      assert InGroup(gpus[..n], g) + [] == InGroup(gpus[..n], g);
      if gpus[n].group == g { at := at + [n]; }
    }
  }

  /** The places of the unclaimed GPUs of an inventory, and of those in one group. */
  ghost function Untaken(inventory: seq<Gpu>, taken: set<string>): set<nat> {
    set i: nat | i < |inventory| && inventory[i].pci !in taken
  }

  ghost function UntakenIn(inventory: seq<Gpu>, taken: set<string>, g: nat): set<nat> {
    set i: nat | i < |inventory| && inventory[i].pci !in taken && inventory[i].group == g
  }

  lemma UntakenGrows(inventory: seq<Gpu>, taken: set<string>, g: nat)
    requires inventory != []
    ensures var n := |inventory| - 1;
      var free := inventory[n].pci !in taken;
      && |Untaken(inventory, taken)| == |Untaken(inventory[..n], taken)| + (if free then 1 else 0)
      && |UntakenIn(inventory, taken, g)| ==
           |UntakenIn(inventory[..n], taken, g)| + if free && inventory[n].group == g then 1 else 0
  {
    var n := |inventory| - 1;
    var free := inventory[n].pci !in taken;
    assert Untaken(inventory, taken) == Untaken(inventory[..n], taken) + if free then {n} else {};
    assert UntakenIn(inventory, taken, g) ==
      UntakenIn(inventory[..n], taken, g) + if free && inventory[n].group == g then {n} else {};
  }

  lemma {:induction false} GroupGrows(gpus: seq<Gpu>, last: Gpu, g: nat)
    ensures InGroup(gpus + [last], g) == InGroup(gpus, g) + if last.group == g then [last] else []
  {
    assert (gpus + [last])[..|gpus|] == gpus;
  }

  lemma {:induction false} FreeGpusCount(inventory: seq<Gpu>, taken: set<string>, g: nat)
    ensures |FreeGpus(inventory, taken)| == |Untaken(inventory, taken)|
    ensures |InGroup(FreeGpus(inventory, taken), g)| == |UntakenIn(inventory, taken, g)|
    decreases |inventory|
  {
    if inventory == [] {
      assert Untaken(inventory, taken) == {} && UntakenIn(inventory, taken, g) == {};
    } else {
      var n := |inventory| - 1;
      FreeGpusCount(inventory[..n], taken, g);
      UntakenGrows(inventory, taken, g);
      GroupGrows(FreeGpus(inventory[..n], taken), inventory[n], g);
      assert FreeGpus(inventory[..n], taken) + [] == FreeGpus(inventory[..n], taken);
    }
  }

  /** Some NVLink group of the inventory has `count` unclaimed GPUs, and no fewer than the group size asked for. */
  ghost predicate GroupServes(inventory: seq<Gpu>, taken: set<string>, count: nat, minGroup: nat) {
    exists g: nat :: g != 0 && |UntakenIn(inventory, taken, g)| >= count && |UntakenIn(inventory, taken, g)| >= minGroup
  }

  /** The score on a host's inventory: 3 when a group serves, 1 when none is asked for and enough GPUs are unclaimed, else 0. */
  lemma {:induction false} TopologyScoreIs(inventory: seq<Gpu>, taken: set<string>, count: nat, minGroup: nat)
    ensures TopologyScore(FreeGpus(inventory, taken), count, minGroup) ==
      if GroupServes(inventory, taken, count, minGroup) then 3
      else if minGroup == 0 && |Untaken(inventory, taken)| >= count then 1 else 0
  {
    var free := FreeGpus(inventory, taken);
    forall g: nat ensures |free| == |Untaken(inventory, taken)| && |InGroup(free, g)| == |UntakenIn(inventory, taken, g)| {
      FreeGpusCount(inventory, taken, g);
    }
    assert |free| == |Untaken(inventory, taken)| by { FreeGpusCount(inventory, taken, 0); }
    if g: nat :| GoodGroup(free, count, minGroup, g) { assert g != 0 && |UntakenIn(inventory, taken, g)| >= count; }
    if GroupServes(inventory, taken, count, minGroup) {
      var g: nat :| g != 0 && |UntakenIn(inventory, taken, g)| >= count && |UntakenIn(inventory, taken, g)| >= minGroup;
      assert GoodGroup(free, count, minGroup, g);
    }
  }

  /** The low 32 bits of what `used` leaves of `total`, at least nothing. */
  function LowLeft(total: nat, used: nat): nat {
    (if used <= total then total - used else 0) % U32_END
  }

  /** When a host is eligible, on its row, its usage and its pools. */
  lemma EligibleIff(fleet: Fleet, ratio: Ratio, req: Request, h: HostRow)
    requires ratio.Valid() && Sized(req.disks)
    ensures var row, u := h.row, fleet.UsageOf(h.id);
      Eligible(fleet, ratio, req, h) <==>
      && row.healthy
      && (forall r <- req.placement.requirements :: r.key in row.labels && row.labels[r.key] in r.values)
      && LowLeft(ratio.Scale(row.cpu), u.cpu) >= req.cpu && LowLeft(row.memory, u.memory) >= req.memory
      && LowLeft(row.rootfsBytes / GIB, u.rootfsGib) >= req.rootfsGib
      && LowLeft(row.dataBytes / GIB, u.dataGib) >= req.dataGib
      && (req.gpus == 0 || GroupServes(row.inventory, u.pcis, req.gpus, req.minGroup)
          || (req.minGroup == 0 && |Untaken(row.inventory, u.pcis)| >= req.gpus))
      && exists placed :: |placed| == |req.disks| && Greedy(Slots(fleet.PoolsOf(h.id)), req.cluster, req.disks, placed)
  {
    TopologyScoreIs(h.row.inventory, fleet.UsageOf(h.id).pcis, req.gpus, req.minGroup);
    var pools := fleet.PoolsOf(h.id);
    if placed :| Placed(pools, req, placed) { assert Greedy(Slots(pools), req.cluster, req.disks, placed); }
    if placed :| |placed| == |req.disks| && Greedy(Slots(pools), req.cluster, req.disks, placed) {
      assert Placed(pools, req, placed);
    }
  }

  function FreeOn(fleet: Fleet, h: HostRow): seq<Gpu> {
    FreeGpus(h.row.inventory, fleet.UsageOf(h.id).pcis)
  }

  ghost predicate Placed(pools: seq<PoolView>, req: Request, placed: seq<DiskPlacement>)
    requires Sized(req.disks)
  {
    |placed| == |req.disks| && Greedy(Slots(pools), req.cluster, req.disks, placed)
  }

  ghost predicate Placeable(pools: seq<PoolView>, req: Request)
    requires Sized(req.disks)
  {
    exists placed :: Placed(pools, req, placed)
  }

  ghost predicate Eligible(fleet: Fleet, ratio: Ratio, req: Request, h: HostRow)
    requires ratio.Valid() && Sized(req.disks)
  {
    && h.row.healthy && req.placement.Satisfies(h.row.labels) && Fits(h.row, fleet.UsageOf(h.id), ratio, req)
    && (req.gpus > 0 ==> GpuScore(fleet, req, h) > 0)
    && Placeable(fleet.PoolsOf(h.id), req)
  }

  function Mates(fleet: Fleet, req: Request, h: string): nat {
    if req.cluster != "" && req.cluster in fleet.UsageOf(h).vmsByCluster then fleet.UsageOf(h).vmsByCluster[req.cluster] else 0
  }

  predicate Replicated(req: Request) {
    req.cluster != "" && exists d <- req.disks :: d.purpose == 1
  }

  function Remaining(host: Host, usage: Usage, ratio: Ratio, req: Request): int
    requires ratio.Valid() && Fits(host, usage, ratio, req)
  {
    Available(host, usage, ratio, Cpu) - req.cpu + Available(host, usage, ratio, Memory) - req.memory
  }

  /** Replicas of the cluster, GPU topology, preference, VMs of the cluster, rank, what is left: in this order. */
  function Fields(fleet: Fleet, ratio: Ratio, req: Request, h: HostRow, gpuScore: int): (score: seq<int>)
    requires ratio.Valid() && Fits(h.row, fleet.UsageOf(h.id), ratio, req)
    ensures |score| == 6
  {
    [if Replicated(req) then 0 - fleet.ReplicasOf(h.id) else 0,
     gpuScore,
     req.placement.Score(h.row.labels),
     0 - Mates(fleet, req, h.id),
     -h.row.rank,
     -Remaining(h.row, fleet.UsageOf(h.id), ratio, req)]
  }

  ghost function ScoreOf(fleet: Fleet, ratio: Ratio, req: Request, h: HostRow): (score: seq<int>)
    requires ratio.Valid() && Sized(req.disks) && Eligible(fleet, ratio, req, h)
    ensures |score| == 6
  {
    Fields(fleet, ratio, req, h, GpuScore(fleet, req, h))
  }

  datatype Candidate = Candidate(host: HostRow, score: seq<int>, gpus: seq<Gpu>, disks: seq<DiskPlacement>)

  ghost predicate Accurate(fleet: Fleet, ratio: Ratio, req: Request, c: Candidate)
    requires ratio.Valid() && Sized(req.disks)
  {
    && Eligible(fleet, ratio, req, c.host) && c.score == ScoreOf(fleet, ratio, req, c.host)
    && GpusChosen(fleet, req, c.host, c.gpus)
    && Placed(fleet.PoolsOf(c.host.id), req, c.disks)
  }

  ghost predicate GpusChosen(fleet: Fleet, req: Request, h: HostRow, gpus: seq<Gpu>) {
    if req.gpus > 0 then IsSelection(FreeOn(fleet, h), req.gpus, req.minGroup, gpus) else gpus == []
  }

  ghost function GpuScore(fleet: Fleet, req: Request, h: HostRow): int {
    if req.gpus > 0 then TopologyScore(FreeOn(fleet, h), req.gpus, req.minGroup) else 0
  }

  method ChooseGpus(fleet: Fleet, req: Request, h: HostRow) returns (ok: bool, score: int, gpus: seq<Gpu>)
    ensures ok <==> (req.gpus > 0 ==> GpuScore(fleet, req, h) > 0)
    ensures score == GpuScore(fleet, req, h) && GpusChosen(fleet, req, h, gpus)
  {
    if req.gpus == 0 { return true, 0, []; }
    score, gpus := GpuTopologyScore(FreeOn(fleet, h), req.gpus, req.minGroup);
    ok := gpus != [];
  }

  /** The verdict on one host: whether it is eligible, and if so its score and choices. */
  ghost predicate Judged(fleet: Fleet, ratio: Ratio, req: Request, h: HostRow, verdict: Option<Candidate>)
    requires ratio.Valid() && Sized(req.disks)
  {
    && (verdict.Some? <==> Eligible(fleet, ratio, req, h))
    && (verdict.Some? ==> verdict.value.host == h && Accurate(fleet, ratio, req, verdict.value))
  }

  method Consider(fleet: Fleet, ratio: Ratio, req: Request, h: HostRow) returns (c: Option<Candidate>)
    requires ratio.Valid() && Sized(req.disks)
    ensures Judged(fleet, ratio, req, h, c)
  {
    if !h.row.healthy || !req.placement.Satisfies(h.row.labels) { return None; }
    if !Fits(h.row, fleet.UsageOf(h.id), ratio, req) { return None; }
    var ok, gpuScore, gpus := ChooseGpus(fleet, req, h);
    if !ok { return None; }
    var disks := PickDiskPlacements(req.cluster, fleet.PoolsOf(h.id), req.disks);
    if disks.None? {
      NotPlaceable(fleet.PoolsOf(h.id), req);
      return None;
    }
    assert Placed(fleet.PoolsOf(h.id), req, disks.value);
    c := Some(Candidate(h, Fields(fleet, ratio, req, h, gpuScore), gpus, disks.value));
  }

  lemma {:induction false} NotPlaceable(pools: seq<PoolView>, req: Request)
    requires Sized(req.disks)
    requires exists part :: Greedy(Slots(pools), req.cluster, req.disks, part) && Stuck(Slots(pools), req.disks, part)
    ensures !Placeable(pools, req)
  {
    var part :| Greedy(Slots(pools), req.cluster, req.disks, part) && Stuck(Slots(pools), req.disks, part);
    forall full | Placed(pools, req, full) ensures false {
      FailsOnlyWhenStuck(Slots(pools), req.cluster, req.disks, full, part);
    }
  }

  /** Host `i` is the last of the best eligible hosts. */
  ghost predicate Winner(fleet: Fleet, ratio: Ratio, req: Request, hosts: seq<HostRow>, i: nat)
    requires ratio.Valid() && Sized(req.disks)
  {
    && i < |hosts| && Eligible(fleet, ratio, req, hosts[i])
    && forall j :: 0 <= j < |hosts| && Eligible(fleet, ratio, req, hosts[j]) ==>
         && !Less(ScoreOf(fleet, ratio, req, hosts[i]), ScoreOf(fleet, ratio, req, hosts[j]))
         && (j > i ==> Less(ScoreOf(fleet, ratio, req, hosts[j]), ScoreOf(fleet, ratio, req, hosts[i])))
  }

  /** The candidates are the positive verdicts, in order; `at` says which. */
  ghost predicate Collected(verdicts: seq<Option<Candidate>>, candidates: seq<Candidate>, at: seq<nat>) {
    && |at| == |candidates|
    && (forall j :: 0 <= j < |at| ==> at[j] < |verdicts| && verdicts[at[j]] == Some(candidates[j]))
    && (forall j, k :: 0 <= j < k < |at| ==> at[j] < at[k])
    && (forall i :: 0 <= i < |verdicts| && verdicts[i].Some? ==> i in at)
  }

  lemma CollectOne(verdicts: seq<Option<Candidate>>, candidates: seq<Candidate>, at: seq<nat>, c: Option<Candidate>)
    requires Collected(verdicts, candidates, at)
    ensures if c.Some? then Collected(verdicts + [c], candidates + [c.value], at + [|verdicts|])
            else Collected(verdicts + [c], candidates, at)
  {
    var more := if c.Some? then at + [|verdicts|] else at;
    forall i | 0 <= i < |verdicts + [c]| && (verdicts + [c])[i].Some? ensures i in more {
      if i < |verdicts| {
        assert i in at;
      } else {
        assert more[|at|] == i;
      }
    }
  }

  ghost predicate AllJudged(fleet: Fleet, ratio: Ratio, req: Request, hosts: seq<HostRow>, verdicts: seq<Option<Candidate>>)
    requires ratio.Valid() && Sized(req.disks)
  {
    |verdicts| == |hosts| && forall i :: 0 <= i < |hosts| ==> Judged(fleet, ratio, req, hosts[i], verdicts[i])
  }

  /** Candidate `w` is the last of the best among the first `n`. */
  ghost predicate Leads(candidates: seq<Candidate>, n: nat, w: nat)
    requires n <= |candidates| && forall c <- candidates :: |c.score| == 6
  {
    && w < n
    && forall j :: 0 <= j < n ==> !Less(candidates[w].score, candidates[j].score)
                                  && (j > w ==> Less(candidates[j].score, candidates[w].score))
  }

  method LastMax(candidates: seq<Candidate>) returns (w: nat)
    requires candidates != [] && forall c <- candidates :: |c.score| == 6
    ensures Leads(candidates, |candidates|, w)
  {
    w := 0;
    LessIsTotal(candidates[0].score, candidates[0].score);
    for i := 1 to |candidates|
      invariant Leads(candidates, i, w)
    {
      if !Less(candidates[i].score, candidates[w].score) {
        forall j | 0 <= j <= i ensures !Less(candidates[i].score, candidates[j].score) {
          LessIsTotal(candidates[i].score, candidates[j].score);
          if Less(candidates[i].score, candidates[j].score) {
            AtMostThenLess(candidates[w].score, candidates[i].score, candidates[j].score);
          }
        }
        w := i;
      } else {
        LessIsTotal(candidates[i].score, candidates[w].score);
      }
    }
  }

  /** Among the positive verdicts, the leader's is the last of the best. */
  ghost predicate Tops(verdicts: seq<Option<Candidate>>, i: nat)
    requires i < |verdicts| && verdicts[i].Some?
    requires forall j :: 0 <= j < |verdicts| && verdicts[j].Some? ==> |verdicts[j].value.score| == 6
  {
    forall j :: 0 <= j < |verdicts| && verdicts[j].Some? ==>
      && !Less(verdicts[i].value.score, verdicts[j].value.score)
      && (j > i ==> Less(verdicts[j].value.score, verdicts[i].value.score))
  }

  lemma LeaderTops(verdicts: seq<Option<Candidate>>, candidates: seq<Candidate>, at: seq<nat>, w: nat)
    requires Collected(verdicts, candidates, at)
    requires forall j :: 0 <= j < |verdicts| && verdicts[j].Some? ==> |verdicts[j].value.score| == 6
    requires (forall c <- candidates :: |c.score| == 6) && Leads(candidates, |candidates|, w)
    ensures Tops(verdicts, at[w])
  {
    forall j | 0 <= j < |verdicts| && verdicts[j].Some?
      ensures !Less(verdicts[at[w]].value.score, verdicts[j].value.score)
      ensures j > at[w] ==> Less(verdicts[j].value.score, verdicts[at[w]].value.score)
    {
      var k :| 0 <= k < |at| && at[k] == j;
      assert verdicts[at[k]] == Some(candidates[k]) && verdicts[at[w]] == Some(candidates[w]);
    }
  }

  lemma TopWins(fleet: Fleet, ratio: Ratio, req: Request, hosts: seq<HostRow>, verdicts: seq<Option<Candidate>>, i: nat)
    requires ratio.Valid() && Sized(req.disks) && AllJudged(fleet, ratio, req, hosts, verdicts)
    requires i < |verdicts| && verdicts[i].Some?
    requires (forall j :: 0 <= j < |verdicts| && verdicts[j].Some? ==> |verdicts[j].value.score| == 6) && Tops(verdicts, i)
    ensures Winner(fleet, ratio, req, hosts, i)
  {
    JudgedScore(fleet, ratio, req, hosts[i], verdicts[i]);
    forall j | 0 <= j < |hosts| && Eligible(fleet, ratio, req, hosts[j])
      ensures !Less(ScoreOf(fleet, ratio, req, hosts[i]), ScoreOf(fleet, ratio, req, hosts[j]))
      ensures j > i ==> Less(ScoreOf(fleet, ratio, req, hosts[j]), ScoreOf(fleet, ratio, req, hosts[i]))
    {
      JudgedScore(fleet, ratio, req, hosts[j], verdicts[j]);
    }
  }

  lemma JudgedScore(fleet: Fleet, ratio: Ratio, req: Request, h: HostRow, verdict: Option<Candidate>)
    requires ratio.Valid() && Sized(req.disks) && Judged(fleet, ratio, req, h, verdict)
    ensures verdict.Some? <==> Eligible(fleet, ratio, req, h)
    ensures verdict.Some? ==> verdict.value.score == ScoreOf(fleet, ratio, req, h)
  {
  }

  method Collect(hosts: seq<HostRow>, fleet: Fleet, req: Request, ratio: Ratio)
    returns (candidates: seq<Candidate>, passed: bool, ghost verdicts: seq<Option<Candidate>>, ghost at: seq<nat>)
    requires ratio.Valid() && Sized(req.disks)
    ensures AllJudged(fleet, ratio, req, hosts, verdicts) && Collected(verdicts, candidates, at)
    ensures passed <==> exists h <- hosts :: h.row.healthy && req.placement.Satisfies(h.row.labels)
  {
    candidates, at, verdicts, passed := [], [], [], false;
    for i := 0 to |hosts|
      invariant AllJudged(fleet, ratio, req, hosts[..i], verdicts) && Collected(verdicts, candidates, at)
      invariant passed <==> exists h <- hosts[..i] :: h.row.healthy && req.placement.Satisfies(h.row.labels)
    {
      assert hosts[..i + 1] == hosts[..i] + [hosts[i]];
      if hosts[i].row.healthy && req.placement.Satisfies(hosts[i].row.labels) { passed := true; }
      var c := Consider(fleet, ratio, req, hosts[i]);
      CollectOne(verdicts, candidates, at, c);
      verdicts := verdicts + [c];
      if c.Some? {
        candidates := candidates + [c.value];
        at := at + [i];
      }
    }
    assert hosts[..|hosts|] == hosts;
  }

  /** The decision is for the winner, with GPUs and disks chosen on it. */
  ghost predicate Decides(fleet: Fleet, ratio: Ratio, req: Request, hosts: seq<HostRow>, d: Decision, i: nat)
    requires ratio.Valid() && Sized(req.disks)
  {
    && Winner(fleet, ratio, req, hosts, i) && d.host == hosts[i].id
    && Accurate(fleet, ratio, req, Candidate(hosts[i], ScoreOf(fleet, ratio, req, hosts[i]), d.gpus, d.disks))
  }

  method Schedule(hosts: seq<HostRow>, fleet: Fleet, req: Request, ratio: Ratio) returns (r: Outcome)
    requires ratio.Valid() && Sized(req.disks)
    ensures r.Chosen? ==> exists i: nat :: Decides(fleet, ratio, req, hosts, r.decision, i)
    ensures r.Refused? <==> forall h <- hosts :: !Eligible(fleet, ratio, req, h)
    ensures r == Refused(UnsatisfiedRequirements) <==>
      (req.placement.requirements != [] && forall h <- hosts :: !(h.row.healthy && req.placement.Satisfies(h.row.labels)))
  {
    var candidates, passed, verdicts, at := Collect(hosts, fleet, req, ratio);
    if candidates == [] {
      forall h <- hosts ensures !Eligible(fleet, ratio, req, h) {
        var i :| 0 <= i < |hosts| && hosts[i] == h;
        assert Judged(fleet, ratio, req, hosts[i], verdicts[i]);
      }
      return Refused(if !passed && req.placement.requirements != [] then UnsatisfiedRequirements else NoCapacity);
    }
    forall j | 0 <= j < |verdicts| && verdicts[j].Some? ensures |verdicts[j].value.score| == 6 {
      JudgedScore(fleet, ratio, req, hosts[j], verdicts[j]);
    }
    var w := LastMax(candidates);
    LeaderTops(verdicts, candidates, at, w);
    TopWins(fleet, ratio, req, hosts, verdicts, at[w]);
    var best := candidates[w];
    assert Judged(fleet, ratio, req, hosts[at[w]], verdicts[at[w]]) && best in candidates;
    r := Chosen(Decision(best.host.id, best.gpus, best.disks));
    assert Decides(fleet, ratio, req, hosts, r.decision, at[w]);
  }
}
