/**
 From decision to commit.

 Exactly when the insert accepts a decision taken on an exact snapshot, and how
 a series of decisions for one cluster spreads its replicated disks over hosts.
 */
module Placements {
  import opened Naming
  import opened Tables
  import opened Capacity
  import opened Scoring
  import opened Disks
  import opened Scheduler

  // --- The chosen GPUs ---

  ghost predicate DistinctPcis(gpus: seq<Gpu>) {
    forall i, j :: 0 <= i < j < |gpus| ==> gpus[i].pci != gpus[j].pci
  }

  function Pcis(gpus: seq<Gpu>): (pcis: seq<string>)
    ensures |pcis| == |gpus| && forall i :: 0 <= i < |gpus| ==> pcis[i] == gpus[i].pci
  {
    if gpus == [] then [] else Pcis(gpus[..|gpus| - 1]) + [gpus[|gpus| - 1].pci]
  }

  lemma {:induction false} FreeGpusAreFree(inventory: seq<Gpu>, taken: set<string>)
    requires DistinctPcis(inventory)
    ensures forall g <- FreeGpus(inventory, taken) :: g in inventory && g.pci !in taken
    ensures DistinctPcis(FreeGpus(inventory, taken))
    decreases |inventory|
  {
    if inventory != [] {
      var init, last := inventory[..|inventory| - 1], inventory[|inventory| - 1];
      FreeGpusAreFree(init, taken);
      forall g <- FreeGpus(init, taken) ensures g.pci != last.pci {
        var i :| 0 <= i < |init| && init[i] == g;
        assert inventory[i] == g;
      }
    }
  }

  lemma {:induction false} GroupIsPart(gpus: seq<Gpu>, g: nat)
    requires DistinctPcis(gpus)
    ensures forall x <- InGroup(gpus, g) :: x in gpus && x.group == g
    ensures DistinctPcis(InGroup(gpus, g))
    decreases |gpus|
  {
    if gpus != [] {
      var init, last := gpus[..|gpus| - 1], gpus[|gpus| - 1];
      GroupIsPart(init, g);
      forall x <- InGroup(init, g) ensures x.pci != last.pci {
        var i :| 0 <= i < |init| && init[i] == x;
        assert gpus[i] == x;
      }
    }
  }

  ghost predicate OneGroup(gpus: seq<Gpu>, n: nat) {
    n != 0 && forall g <- gpus :: g.group == n
  }

  /** As many as asked for, all different, all unclaimed, and with a group size asked for all in one NVLink group. */
  lemma {:induction false} SelectionIsClean(inventory: seq<Gpu>, taken: set<string>, count: nat, minGroup: nat,
                                            selected: seq<Gpu>)
    requires DistinctPcis(inventory) && IsSelection(FreeGpus(inventory, taken), count, minGroup, selected)
    requires TopologyScore(FreeGpus(inventory, taken), count, minGroup) > 0
    ensures |selected| == count && DistinctPcis(selected)
    ensures forall g <- selected :: g in inventory && g.pci !in taken
    ensures minGroup > 0 ==> exists n: nat :: OneGroup(selected, n)
  {
    var free := FreeGpus(inventory, taken);
    FreeGpusAreFree(inventory, taken);
    if HasGoodGroup(free, count, minGroup) {
      var n: nat :| GoodGroup(free, count, minGroup, n) && selected == InGroup(free, n)[..count];
      GroupIsPart(free, n);
      assert forall g <- selected :: g in InGroup(free, n);
      assert OneGroup(selected, n);
    } else {
      assert forall g <- selected :: g in free;
    }
  }

  // --- Commit ---

  function SumGib(disks: seq<Disk>): nat
    decreases |disks|
  {
    if disks == [] then 0 else disks[0].gib + SumGib(disks[1..])
  }

  /** Every disk counts with its size, wherever it is in the list. */
  lemma {:induction false} SumGibOfOne(disks: seq<Disk>, i: nat)
    requires i < |disks|
    ensures SumGib(disks) == SumGib(disks[..i] + disks[i + 1..]) + disks[i].gib
    decreases |disks|
  {
    var rest := disks[..i] + disks[i + 1..];
    if i == 0 {
      assert rest == disks[1..];
    } else {
      var tail := disks[1..];
      SumGibOfOne(tail, i - 1);
      assert tail[..i - 1] + tail[i..] == rest[1..] && rest[0] == disks[0];
    }
  }

  /** The request adds the disk sizes up in 32 bits; the gate does in 64, and the VM row has them in full. */
  predicate Requested(req: Request) {
    req.dataGib == SumGib(req.disks) % U32_END
  }

  lemma SmallSumIsExact(req: Request)
    requires Requested(req) && SumGib(req.disks) < U32_END
    ensures req.dataGib == SumGib(req.disks)
  {
  }

  /** The VM row and the disk rows that carry out a decision for a request. */
  ghost predicate CarriesOut(req: Request, d: Decision, id: string, vm: Vm, rows: seq<DiskRow>) {
    && vm.host == d.host && vm.cluster == req.cluster
    && (forall r :: r != Data ==> Amount(vm, r) == req.Of(r)) && vm.dataGib == SumGib(req.disks)
    && |rows| == |d.disks|
    && forall i :: 0 <= i < |rows| ==>
         var p := d.disks[i];
         rows[i] == DiskRow(DiskKey(id, p.index), d.host, p.key.0, p.key.1, req.cluster, p.purpose == 1)
  }

  /** A VM identifier no row uses yet. */
  ghost predicate NewVm(s: Tables, id: string, vm: Vm) {
    && NameFree(s, id, vm) && vm.cluster in s.clusters
    && forall k :: k in s.disks ==> k == AssignmentId(s.disks[k].key) && s.disks[k].key.vm != id
  }

  /** What fits is admitted, in every resource in which the row asks for what the request does. */
  lemma FittingHostHasRoom(s: Tables, ratio: Ratio, fleet: Fleet, req: Request, h: HostRow, vm: Vm, r: Resource)
    requires ratio.Valid() && h.id in s.hosts && s.hosts[h.id] == h.row && Accounts(s, h.id, fleet.UsageOf(h.id))
    requires Fits(h.row, fleet.UsageOf(h.id), ratio, req)
    requires vm.host == h.id && Amount(vm, r) == req.Of(r) && HostWithin(s, ratio, h.id, r)
    ensures HasRoom(s, ratio, vm, r)
  {
    var usage := fleet.UsageOf(h.id);
    FittingHostIsAdmittedIff(h.row, usage, ratio, req, r);
    WithinUnits(h.row, ratio, r, usage.Of(r));
    NeedIsExact(vm, r);
  }

  lemma FittingHostIsAdmitted(s: Tables, ratio: Ratio, fleet: Fleet, req: Request, h: HostRow, vm: Vm)
    requires ratio.Valid() && h.id in s.hosts && s.hosts[h.id] == h.row && h.row.healthy
    requires Accounts(s, h.id, fleet.UsageOf(h.id)) && Fits(h.row, fleet.UsageOf(h.id), ratio, req)
    requires vm.host == h.id && forall r :: r != Data ==> Amount(vm, r) == req.Of(r)
    requires forall r :: HostWithin(s, ratio, h.id, r)
    ensures Admits(s, ratio, vm) <==> HasRoom(s, ratio, vm, Data)
    ensures vm.dataGib == req.dataGib ==> HasRoom(s, ratio, vm, Data)
  {
    forall r | Amount(vm, r) == req.Of(r) ensures HasRoom(s, ratio, vm, r) {
      assert HostWithin(s, ratio, h.id, r);
      FittingHostHasRoom(s, ratio, fleet, req, h, vm, r);
    }
    assert HasRoom(s, ratio, vm, Cpu) && HasRoom(s, ratio, vm, Memory) && HasRoom(s, ratio, vm, Rootfs);
  }

  lemma WithinUnits(host: Host, ratio: Ratio, r: Resource, used: nat)
    requires ratio.Valid() && used * Unit(r) <= Total(host, ratio, r)
    ensures used <= Units(host, ratio, r)
  {
  }

  lemma PlacementIndexes(slots: seq<Slot>, cluster: string, disks: seq<Disk>, placed: seq<DiskPlacement>, i: nat)
    requires Sized(disks) && Greedy(slots, cluster, disks, placed) && i < |placed|
    ensures placed[i].index == i && placed[i].purpose == disks[i].purpose
  {
    var _ := PlacementFits(slots, cluster, disks, placed, i);
  }

  lemma NewDisksAreFree(s: Tables, req: Request, d: Decision, id: string, vm: Vm, rows: seq<DiskRow>, pools: seq<PoolView>)
    requires Sized(req.disks) && Placed(pools, req, d.disks) && CarriesOut(req, d, id, vm, rows) && NewVm(s, id, vm)
    ensures DistinctKeys(rows) && forall row <- rows :: !DiskTaken(s.disks, row.key)
  {
    forall i | 0 <= i < |rows| ensures rows[i].key == DiskKey(id, i) {
      PlacementIndexes(Slots(pools), req.cluster, req.disks, d.disks, i);
    }
    forall row <- rows ensures !DiskTaken(s.disks, row.key) {
      assert row.key.vm == id;
      if AssignmentId(row.key) in s.disks { AssignmentIdInjective(row.key, s.disks[AssignmentId(row.key)].key); }
    }
  }

  lemma {:induction false} ChosenGpusAreFree(s: Tables, fleet: Fleet, req: Request, h: HostRow, id: string, gpus: seq<Gpu>)
    requires Accounts(s, h.id, fleet.UsageOf(h.id)) && DistinctPcis(h.row.inventory) && GpusChosen(fleet, req, h, gpus)
    requires (req.gpus > 0 ==> GpuScore(fleet, req, h) > 0) && GpusRefer(s) && id !in s.vms
    ensures GpusFree(s, id, h.id, Pcis(gpus))
  {
    if req.gpus > 0 {
      SelectionIsClean(h.row.inventory, fleet.UsageOf(h.id).pcis, req.gpus, req.minGroup, gpus);
    }
    forall g <- s.gpus | g.pci in Pcis(gpus) ensures g.host != h.id && g.vm != id {
      var i :| 0 <= i < |gpus| && gpus[i].pci == g.pci;
      assert gpus[i] in gpus && gpus[i].pci !in ClaimsOn(s.gpus, h.id);
    }
  }

  lemma ChoiceCommits(s: Tables, ratio: Ratio, fleet: Fleet, req: Request, h: HostRow, d: Decision,
                      id: string, vm: Vm, rows: seq<DiskRow>)
    requires ratio.Valid() && Sized(req.disks) && h.row.healthy && d.host == h.id
    requires Fits(h.row, fleet.UsageOf(h.id), ratio, req) && (req.gpus > 0 ==> GpuScore(fleet, req, h) > 0)
    requires GpusChosen(fleet, req, h, d.gpus) && Placed(fleet.PoolsOf(h.id), req, d.disks)
    requires h.id in s.hosts && s.hosts[h.id] == h.row && Accounts(s, h.id, fleet.UsageOf(h.id))
    requires DistinctPcis(h.row.inventory) && GpusRefer(s) && forall r :: HostWithin(s, ratio, h.id, r)
    requires Requested(req) && CarriesOut(req, d, id, vm, rows) && NewVm(s, id, vm)
    ensures InsertVm(s, ratio, id, vm, Pcis(d.gpus), rows).1.Ok? <==> HasRoom(s, ratio, vm, Data)
    ensures SumGib(req.disks) < U32_END ==> HasRoom(s, ratio, vm, Data)
  {
    if SumGib(req.disks) < U32_END { SmallSumIsExact(req); }
    FittingHostIsAdmitted(s, ratio, fleet, req, h, vm);
    ChosenGpusAreFree(s, fleet, req, h, id, d.gpus);
    NewDisksAreFree(s, req, d, id, vm, rows, fleet.PoolsOf(h.id));
    CommitIff(s, ratio, id, vm, Pcis(d.gpus), rows);
  }

  /**
   A decision made on an exact snapshot of a host that is not overdrawn commits
   exactly when what the host has left covers the disk sizes, added up in 64
   bits and read as a signed number; it does when they add up to less than 2^32
   GiB. After a commit the host is within its data bytes exactly when they add
   up to less than 2^33 GiB.
   */
  lemma ExactDecisionCommitsIff(s: Tables, ratio: Ratio, fleet: Fleet, req: Request, hosts: seq<HostRow>, d: Decision, i: nat,
                                id: string, vm: Vm, rows: seq<DiskRow>)
    requires ratio.Valid() && Sized(req.disks) && Decides(fleet, ratio, req, hosts, d, i)
    requires hosts[i].id in s.hosts && s.hosts[hosts[i].id] == hosts[i].row
    requires Accounts(s, hosts[i].id, fleet.UsageOf(hosts[i].id))
    requires DistinctPcis(hosts[i].row.inventory) && GpusRefer(s) && forall r :: HostWithin(s, ratio, hosts[i].id, r)
    requires Requested(req) && CarriesOut(req, d, id, vm, rows) && NewVm(s, id, vm)
    ensures var (t, r) := InsertVm(s, ratio, id, vm, Pcis(d.gpus), rows);
      var sum, host := SumGib(req.disks), hosts[i].row;
      && (r.Ok? <==> host.dataBytes - Used(s.vms, d.host, Data) * GIB >= NeedBytes(sum % U64_END))
      && (sum < U32_END ==> r.Ok?)
      && (r.Ok? && host.dataBytes < I64_END ==> (HostWithin(t, ratio, d.host, Data) <==> sum < GIB_END))
  {
    ChoiceCommits(s, ratio, fleet, req, hosts[i], d, id, vm, rows);
    CommitIff(s, ratio, id, vm, Pcis(d.gpus), rows);
    if HasRoom(s, ratio, vm, Data) && hosts[i].row.dataBytes < I64_END {
      UsedInsert(s.vms, id, vm, d.host, Data);
      AdmittedDataFitsIff(s, ratio, vm);
    }
  }

  /** A request for nothing but disks. */
  function DisksOnly(cluster: string, disks: seq<Disk>): Request {
    Request(cluster, 0, 0, 0, SumGib(disks) % U32_END, 0, 0, ANYWHERE, disks)
  }

  /** A host with one device that can be scheduled, full or not. */
  ghost predicate OneDevice(fleet: Fleet, h: HostRow, slot: Slot) {
    && h.row.healthy && fleet.PoolsOf(h.id) == [slot.pool] && slot.pool.devices == [slot.device]
    && slot.device.schedulable && slot.device.freeBytes >= 0
  }

  lemma HugeDisksAreDecided(fleet: Fleet, ratio: Ratio, h: HostRow, slot: Slot, cluster: string, disks: seq<Disk>)
    returns (d: Decision)
    requires ratio.Valid() && OneDevice(fleet, h, slot) && (forall x <- disks :: Huge(x)) && SumGib(disks) % U32_END == 0
    ensures Sized(disks) && Requested(DisksOnly(cluster, disks))
    ensures Decides(fleet, ratio, DisksOnly(cluster, disks), [h], d, 0)
  {
    var req := DisksOnly(cluster, disks);
    var placed := HugeDisksAreTaken(slot, cluster, disks, |disks|);
    assert Slots(fleet.PoolsOf(h.id)) == [slot];
    assert Placed(fleet.PoolsOf(h.id), req, placed);
    assert Eligible(fleet, ratio, req, h);
    d := Decision(h.id, [], placed);
    var score := ScoreOf(fleet, ratio, req, h);
    LessIsTotal(score, score);
    assert Winner(fleet, ratio, req, [h], 0);
  }

  const HALF := Disk(I64_END, None, 2)
  const HALF_AND_MORE := Disk(I64_END + U32_END, None, 2)
  const ALMOST_ALL := Disk(U64_END - U32_END, None, 2)

  /**
   Two disks of about 2^63 GiB add up to nothing in 32 bits and to 2^32 GiB in
   64: on a host with less than 2^62 bytes the decision never commits.
   */
  lemma DecisionCanFail(s: Tables, ratio: Ratio, fleet: Fleet, h: HostRow, slot: Slot, cluster: string) returns (d: Decision)
    requires ratio.Valid() && OneDevice(fleet, h, slot) && h.row.dataBytes < U32_END * GIB
    requires h.id in s.hosts && s.hosts[h.id] == h.row
    ensures var req := DisksOnly(cluster, [HALF, HALF_AND_MORE]);
      && Sized(req.disks) && Requested(req) && Decides(fleet, ratio, req, [h], d, 0)
      && forall id, vm, rows :: CarriesOut(req, d, id, vm, rows) ==>
           InsertVm(s, ratio, id, vm, Pcis(d.gpus), rows) == (s, Err(CapacityRaced))
  {
    var disks := [HALF, HALF_AND_MORE];
    assert disks[1..] == [HALF_AND_MORE] && [HALF_AND_MORE][1..] == [];
    assert SumGib([HALF_AND_MORE]) == I64_END + U32_END;
    d := HugeDisksAreDecided(fleet, ratio, h, slot, cluster, disks);
    forall id, vm, rows | CarriesOut(DisksOnly(cluster, disks), d, id, vm, rows)
      ensures InsertVm(s, ratio, id, vm, Pcis(d.gpus), rows) == (s, Err(CapacityRaced))
    {
      NeverEnough(s, ratio, id, vm, Pcis(d.gpus), rows);
    }
  }

  lemma NeverEnough(s: Tables, ratio: Ratio, id: string, vm: Vm, pcis: seq<string>, rows: seq<DiskRow>)
    requires ratio.Valid() && vm.host in s.hosts && s.hosts[vm.host].healthy && s.hosts[vm.host].dataBytes < U32_END * GIB
    requires vm.dataGib == U64_END + U32_END
    ensures InsertVm(s, ratio, id, vm, pcis, rows) == (s, Err(CapacityRaced))
  {
    assert Need(vm, Data) == U32_END * GIB && !HasRoom(s, ratio, vm, Data);
  }

  /** A disk of 2^64 - 2^32 GiB is decided and committed on any host that is not overdrawn, however full, and overdraws it. */
  lemma DecisionCanOverdraw(s: Tables, ratio: Ratio, fleet: Fleet, h: HostRow, slot: Slot, cluster: string) returns (d: Decision)
    requires ratio.Valid() && OneDevice(fleet, h, slot) && h.row.dataBytes < I64_END
    requires h.id in s.hosts && s.hosts[h.id] == h.row && Accounts(s, h.id, fleet.UsageOf(h.id))
    requires DistinctPcis(h.row.inventory) && GpusRefer(s) && forall r :: HostWithin(s, ratio, h.id, r)
    ensures var req := DisksOnly(cluster, [ALMOST_ALL]);
      && Sized(req.disks) && Requested(req) && Decides(fleet, ratio, req, [h], d, 0)
      && forall id, vm, rows :: CarriesOut(req, d, id, vm, rows) && NewVm(s, id, vm) ==>
           var (t, r) := InsertVm(s, ratio, id, vm, Pcis(d.gpus), rows);
           r.Ok? && !HostWithin(t, ratio, h.id, Data)
  {
    var disks := [ALMOST_ALL];
    assert disks[1..] == [];
    d := HugeDisksAreDecided(fleet, ratio, h, slot, cluster, disks);
    forall id, vm, rows | CarriesOut(DisksOnly(cluster, disks), d, id, vm, rows) && NewVm(s, id, vm)
      ensures var (t, r) := InsertVm(s, ratio, id, vm, Pcis(d.gpus), rows); r.Ok? && !HostWithin(t, ratio, h.id, Data)
    {
      HugeDecisionCommits(s, ratio, fleet, DisksOnly(cluster, disks), h, d, id, vm, rows);
    }
  }

  lemma HugeNeedIsNegative()
    ensures NeedBytes((U64_END - U32_END) % U64_END) < 0
  {
  }

  lemma HugeDecisionCommits(s: Tables, ratio: Ratio, fleet: Fleet, req: Request, h: HostRow, d: Decision,
                            id: string, vm: Vm, rows: seq<DiskRow>)
    requires ratio.Valid() && Sized(req.disks) && Requested(req) && SumGib(req.disks) == U64_END - U32_END
    requires Decides(fleet, ratio, req, [h], d, 0) && h.row.dataBytes < I64_END
    requires h.id in s.hosts && s.hosts[h.id] == h.row && Accounts(s, h.id, fleet.UsageOf(h.id))
    requires DistinctPcis(h.row.inventory) && GpusRefer(s) && forall r :: HostWithin(s, ratio, h.id, r)
    requires CarriesOut(req, d, id, vm, rows) && NewVm(s, id, vm)
    ensures var (t, r) := InsertVm(s, ratio, id, vm, Pcis(d.gpus), rows); r.Ok? && !HostWithin(t, ratio, h.id, Data)
  {
    assert HostWithin(s, ratio, h.id, Data) && [h][0] == h;
    HugeNeedIsNegative();
    ExactDecisionCommitsIff(s, ratio, fleet, req, [h], d, 0, id, vm, rows);
  }

  // --- Spread of replicated disks ---

  predicate ReplicaOn(row: DiskRow, c: string, h: string) {
    row.cluster == c && row.host == h && row.replicated
  }

  /** The replicated disks of cluster `c` on host `h`. */
  function Replicas(disks: map<string, DiskRow>, c: string, h: string): set<string> {
    set id | id in disks && ReplicaOn(disks[id], c, h)
  }

  function ReplicaRows(rows: seq<DiskRow>, c: string, h: string): nat
    decreases |rows|
  {
    if rows == [] then 0 else (if ReplicaOn(rows[0], c, h) then 1 else 0) + ReplicaRows(rows[1..], c, h)
  }

  /** A commit adds what it enters, host by host. */
  lemma {:induction false} CommitCounts(disks: map<string, DiskRow>, rows: seq<DiskRow>, c: string, h: string)
    requires EnterDisks(disks, rows).Some?
    ensures |Replicas(EnterDisks(disks, rows).value, c, h)| == |Replicas(disks, c, h)| + ReplicaRows(rows, c, h)
    decreases |rows|
  {
    if rows != [] {
      var id := AssignmentId(rows[0].key);
      var more := disks[id := rows[0]];
      CommitCounts(more, rows[1..], c, h);
      assert Replicas(more, c, h) == Replicas(disks, c, h) + if ReplicaOn(rows[0], c, h) then {id} else {};
    }
  }

  ghost predicate Commits(disks: map<string, DiskRow>, rows: seq<DiskRow>, to: map<string, DiskRow>) {
    EnterDisks(disks, rows) == Some(to)
  }

  datatype Event = Event(req: Request, fleet: Fleet, decision: Decision, winner: nat, rows: seq<DiskRow>)

  /** One placement for cluster `c`, every host eligible, that enters at least one and at most `m` replicated disks. */
  ghost predicate SpreadStep(hosts: seq<HostRow>, ratio: Ratio, c: string, m: nat,
                             disks: map<string, DiskRow>, to: map<string, DiskRow>, e: Event)
    requires ratio.Valid()
  {
    && Sized(e.req.disks) && Replicated(e.req) && e.req.cluster == c
    && (forall h <- hosts :: Eligible(e.fleet, ratio, e.req, h) && e.fleet.ReplicasOf(h.id) == |Replicas(disks, c, h.id)|)
    && Decides(e.fleet, ratio, e.req, hosts, e.decision, e.winner)
    && (forall row <- e.rows :: row.host == e.decision.host && row.cluster == c)
    && ReplicaRows(e.rows, c, e.decision.host) <= m
    && Commits(disks, e.rows, to)
  }

  ghost predicate Balanced(hosts: seq<HostRow>, disks: map<string, DiskRow>, c: string, m: nat) {
    forall g <- hosts, h <- hosts :: |Replicas(disks, c, g.id)| <= |Replicas(disks, c, h.id)| + m
  }

  lemma {:induction false} FirstFieldDecides(a: seq<int>, b: seq<int>)
    requires |a| == |b| > 0 && !Less(a, b)
    ensures b[0] <= a[0]
  {
  }

  /** The winner has the fewest replicas. */
  lemma WinnerHasFewest(hosts: seq<HostRow>, ratio: Ratio, c: string, m: nat,
                        disks: map<string, DiskRow>, to: map<string, DiskRow>, e: Event, h: HostRow)
    requires ratio.Valid() && SpreadStep(hosts, ratio, c, m, disks, to, e) && h in hosts
    ensures |Replicas(disks, c, e.decision.host)| <= |Replicas(disks, c, h.id)|
  {
    var j :| 0 <= j < |hosts| && hosts[j] == h;
    var w := hosts[e.winner];
    assert w in hosts && Eligible(e.fleet, ratio, e.req, w) && Eligible(e.fleet, ratio, e.req, hosts[j]);
    FirstFieldDecides(ScoreOf(e.fleet, ratio, e.req, w), ScoreOf(e.fleet, ratio, e.req, hosts[j]));
  }

  lemma {:induction false} NoReplicaRows(rows: seq<DiskRow>, c: string, h: string)
    requires forall row <- rows :: row.host != h
    ensures ReplicaRows(rows, c, h) == 0
    decreases |rows|
  {
    if rows != [] { NoReplicaRows(rows[1..], c, h); }
  }

  /** Host `w`, which has the fewest replicas, gets at most `m` more; the others keep what they have. */
  ghost predicate FewestGrows(hosts: seq<HostRow>, c: string, m: nat,
                              disks: map<string, DiskRow>, to: map<string, DiskRow>, w: string)
  {
    forall h <- hosts ::
      && |Replicas(disks, c, w)| <= |Replicas(disks, c, h.id)| <= |Replicas(to, c, h.id)|
      && |Replicas(to, c, h.id)| <= |Replicas(disks, c, h.id)| + if h.id == w then m else 0
  }

  lemma StepGrowsFewest(hosts: seq<HostRow>, ratio: Ratio, c: string, m: nat,
                        disks: map<string, DiskRow>, to: map<string, DiskRow>, e: Event)
    requires ratio.Valid() && SpreadStep(hosts, ratio, c, m, disks, to, e)
    ensures FewestGrows(hosts, c, m, disks, to, e.decision.host)
  {
    forall h <- hosts
      ensures |Replicas(disks, c, e.decision.host)| <= |Replicas(disks, c, h.id)| <= |Replicas(to, c, h.id)|
      ensures |Replicas(to, c, h.id)| <= |Replicas(disks, c, h.id)| + if h.id == e.decision.host then m else 0
    {
      WinnerHasFewest(hosts, ratio, c, m, disks, to, e, h);
      CommitCounts(disks, e.rows, c, h.id);
      if h.id != e.decision.host { NoReplicaRows(e.rows, c, h.id); }
    }
  }

  lemma {:induction false} GrowingFewestBalances(hosts: seq<HostRow>, c: string, m: nat,
                                                 states: seq<map<string, DiskRow>>, at: seq<string>, n: nat)
    requires |states| == |at| + 1 && n < |states| && Balanced(hosts, states[0], c, m)
    requires forall i :: 0 <= i < |at| ==> FewestGrows(hosts, c, m, states[i], states[i + 1], at[i])
    ensures Balanced(hosts, states[n], c, m)
  {
    if n > 0 {
      GrowingFewestBalances(hosts, c, m, states, at, n - 1);
      assert FewestGrows(hosts, c, m, states[n - 1], states[n], at[n - 1]);
    }
  }

  /**
   Over any number of placements with at most `m` replicated disks each, the
   replica counts of any two hosts differ by at most `m`: by one when every
   request brings one.
   */
  lemma ReplicasStayBalanced(hosts: seq<HostRow>, ratio: Ratio, c: string, m: nat,
                             states: seq<map<string, DiskRow>>, events: seq<Event>, n: nat)
    requires ratio.Valid() && |states| == |events| + 1 && n < |states|
    requires forall h <- hosts :: Replicas(states[0], c, h.id) == {}
    requires forall i :: 0 <= i < |events| ==> SpreadStep(hosts, ratio, c, m, states[i], states[i + 1], events[i])
    ensures Balanced(hosts, states[n], c, m)
  {
    var at := seq(|events|, i requires 0 <= i < |events| => events[i].decision.host);
    forall i | 0 <= i < |at| ensures FewestGrows(hosts, c, m, states[i], states[i + 1], at[i]) {
      StepGrowsFewest(hosts, ratio, c, m, states[i], states[i + 1], events[i]);
    }
    GrowingFewestBalances(hosts, c, m, states, at, n);
  }

  // --- What the score prefers ---

  /**
   Fewer replicas of the cluster, better GPU topology, higher preference (added
   up in 32 bits), fewer VMs of the cluster, lower rank, less left over: the
   first difference decides.
   */
  ghost predicate Preferred(fleet: Fleet, ratio: Ratio, req: Request, g: HostRow, h: HostRow)
    requires ratio.Valid() && Sized(req.disks) && Eligible(fleet, ratio, req, g) && Eligible(fleet, ratio, req, h)
  {
    var spread := req.cluster != "" && exists d <- req.disks :: d.purpose == 1;
    var replicas := (x: HostRow) => if spread then fleet.ReplicasOf(x.id) else 0;
    || replicas(g) < replicas(h)
    || (replicas(g) == replicas(h) && (
          || GpuScore(fleet, req, g) > GpuScore(fleet, req, h)
          || (GpuScore(fleet, req, g) == GpuScore(fleet, req, h) && PreferredByLabels(fleet, ratio, req, g, h))))
  }

  /** The CPUs and MiB a host has left for requests, as the scheduler sees them. */
  function LeftOver(fleet: Fleet, ratio: Ratio, h: HostRow): nat
    requires ratio.Valid()
  {
    var u := fleet.UsageOf(h.id);
    LowLeft(ratio.Scale(h.row.cpu), u.cpu) + LowLeft(h.row.memory, u.memory)
  }

  ghost predicate PreferredByLabels(fleet: Fleet, ratio: Ratio, req: Request, g: HostRow, h: HostRow)
    requires ratio.Valid() && Sized(req.disks) && Eligible(fleet, ratio, req, g) && Eligible(fleet, ratio, req, h)
  {
    var weight := (x: HostRow) => req.placement.Score(x.row.labels);
    var mates := (x: HostRow) => if req.cluster == "" then 0 else MateCount(fleet.UsageOf(x.id), req.cluster);
    || weight(g) > weight(h)
    || (weight(g) == weight(h) && (
          || mates(g) < mates(h)
          || (mates(g) == mates(h) && (
                || g.row.rank < h.row.rank
                || (g.row.rank == h.row.rank && (
                      LeftOver(fleet, ratio, g) < LeftOver(fleet, ratio, h)))))))
  }

  lemma FieldsAre(fleet: Fleet, ratio: Ratio, req: Request, h: HostRow)
    requires ratio.Valid() && Fits(h.row, fleet.UsageOf(h.id), ratio, req)
    ensures Mates(fleet, req, h.id) == if req.cluster == "" then 0 else MateCount(fleet.UsageOf(h.id), req.cluster)
    ensures Remaining(h.row, fleet.UsageOf(h.id), ratio, req) == LeftOver(fleet, ratio, h) - req.cpu - req.memory
  {
  }

  /** The order of the scores is the order of the criteria, preference before same-cluster spread. */
  lemma ScoreOrder(fleet: Fleet, ratio: Ratio, req: Request, g: HostRow, h: HostRow)
    requires ratio.Valid() && Sized(req.disks) && Eligible(fleet, ratio, req, g) && Eligible(fleet, ratio, req, h)
    ensures Less(ScoreOf(fleet, ratio, req, h), ScoreOf(fleet, ratio, req, g)) <==> Preferred(fleet, ratio, req, g, h)
  {
    LessOfSix(ScoreOf(fleet, ratio, req, h), ScoreOf(fleet, ratio, req, g));
    FieldsAre(fleet, ratio, req, g);
    FieldsAre(fleet, ratio, req, h);
  }
}
