/**
 The controller's database: its tables as fields, each transaction a method.

 A method's contract ties the tables before and after to the transition of the
 same name on values, which is what the run theorems speak about.
 */
module Database {
  import opened Ipv4
  import opened Naming
  import opened Config
  import opened Tables
  import opened Networks
  import opened ServiceBlocks
  import opened Teardown
  import opened Controller
  import opened Capacity
  import opened Scheduler
  import T = Tables

  // --- Usage snapshots ---

  function Lookup(usage: map<string, Usage>, h: string): Usage {
    if h in usage then usage[h] else IDLE
  }

  method SumOnHost(vms: map<string, Vm>, h: string, r: Resource) returns (n: nat)
    ensures n == Used(vms, h, r)
  {
    n := 0;
    var rest := vms;
    while rest != map[]
      invariant n + Used(rest, h, r) == Used(vms, h, r)
      decreases |rest|
    {
      var v :| v in rest;
      UsedRemove(rest, v, h, r);
      n := n + AmountOn(rest[v], h, r);
      rest := rest - {v};
    }
  }

  /** The sums of every host that has a VM, and nothing else. */
  method SumsByHost(vms: map<string, Vm>) returns (usage: map<string, Usage>)
    ensures forall h, r :: Lookup(usage, h).Of(r) == Used(vms, h, r)
    ensures forall h :: Lookup(usage, h).pcis == {} && Lookup(usage, h).vmsByCluster == map[]
  {
    usage := map[];
    var busy := set v | v in vms :: vms[v].host;
    var rest := busy;
    while rest != {}
      invariant rest <= busy && usage.Keys == busy - rest
      invariant forall h, r :: h in usage ==> usage[h].Of(r) == Used(vms, h, r)
      invariant forall h :: h in usage ==> usage[h].pcis == {} && usage[h].vmsByCluster == map[]
      decreases |rest|
    {
      var h :| h in rest;
      var cpu := SumOnHost(vms, h, Cpu);
      var memory := SumOnHost(vms, h, Memory);
      var rootfs := SumOnHost(vms, h, Rootfs);
      var data := SumOnHost(vms, h, Data);
      usage, rest := usage[h := Usage(cpu, memory, rootfs, data, {}, map[])], rest - {h};
    }
    forall h, r ensures Lookup(usage, h).Of(r) == Used(vms, h, r) {
      if h !in usage { UnusedHost(vms, h, r); }
    }
  }

  /** `usage` is `sums` with the claims in `gpus`. */
  ghost predicate WithClaims(sums: map<string, Usage>, gpus: set<GpuClaim>, usage: map<string, Usage>) {
    forall h :: Lookup(usage, h) == Lookup(sums, h).(pcis := ClaimsOn(gpus, h))
  }

  lemma OneMoreClaim(sums: map<string, Usage>, done: set<GpuClaim>, usage: map<string, Usage>, g: GpuClaim)
    requires WithClaims(sums, done, usage)
    ensures var u := Lookup(usage, g.host); WithClaims(sums, done + {g}, usage[g.host := u.(pcis := u.pcis + {g.pci})])
  {
    var u := Lookup(usage, g.host);
    var more := usage[g.host := u.(pcis := u.pcis + {g.pci})];
    forall h ensures Lookup(more, h) == Lookup(sums, h).(pcis := ClaimsOn(done + {g}, h)) {
      assert ClaimsOn(done + {g}, h) == ClaimsOn(done, h) + if h == g.host then {g.pci} else {};
      assert Lookup(usage, h) == Lookup(sums, h).(pcis := ClaimsOn(done, h));
    }
  }

  /** The claimed GPUs, in an entry made for the host where there is none. */
  method AddClaims(sums: map<string, Usage>, gpus: set<GpuClaim>) returns (usage: map<string, Usage>)
    requires forall h :: Lookup(sums, h).pcis == {}
    ensures WithClaims(sums, gpus, usage)
  {
    usage := sums;
    var done: set<GpuClaim> := {};
    assert forall h :: ClaimsOn(done, h) == {};
    while done != gpus
      invariant done <= gpus && WithClaims(sums, done, usage)
      decreases |gpus - done|
    {
      var g :| g in gpus - done;
      var u := Lookup(usage, g.host);
      OneMoreClaim(sums, done, usage, g);
      usage, done := usage[g.host := u.(pcis := u.pcis + {g.pci})], done + {g};
    }
  }

  /** `usage` is `before` with the VMs in `seen` counted by host and cluster. */
  ghost predicate WithCounts(before: map<string, Usage>, vms: map<string, Vm>, seen: set<string>, usage: map<string, Usage>) {
    && (forall h :: Lookup(usage, h) == Lookup(before, h).(vmsByCluster := Lookup(usage, h).vmsByCluster))
    && (forall h, c :: MateCount(Lookup(usage, h), c) == |VmsOf(vms, h, c) * seen|)
  }

  function OneMore(u: Usage, c: string): Usage {
    u.(vmsByCluster := u.vmsByCluster[c := MateCount(u, c) + 1])
  }

  predicate Mate(vm: Vm, h: string, c: string) { vm.host == h && vm.cluster == c }

  lemma CountGrows(vms: map<string, Vm>, seen: set<string>, v: string, h: string, c: string)
    requires v in vms && v !in seen
    ensures |VmsOf(vms, h, c) * (seen + {v})| == |VmsOf(vms, h, c) * seen| + if Mate(vms[v], h, c) then 1 else 0
  {
    assert VmsOf(vms, h, c) * (seen + {v}) == VmsOf(vms, h, c) * seen + if Mate(vms[v], h, c) then {v} else {};
  }

  lemma EntryGrows(usage: map<string, Usage>, vm: Vm, h: string, c: string)
    ensures var more := usage[vm.host := OneMore(Lookup(usage, vm.host), vm.cluster)];
      MateCount(Lookup(more, h), c) == MateCount(Lookup(usage, h), c) + if Mate(vm, h, c) then 1 else 0
  {
  }

  lemma OneMoreCount(before: map<string, Usage>, vms: map<string, Vm>, seen: set<string>, usage: map<string, Usage>, v: string)
    requires WithCounts(before, vms, seen, usage) && v in vms && v !in seen
    ensures WithCounts(before, vms, seen + {v}, usage[vms[v].host := OneMore(Lookup(usage, vms[v].host), vms[v].cluster)])
  {
    var more := usage[vms[v].host := OneMore(Lookup(usage, vms[v].host), vms[v].cluster)];
    forall h ensures Lookup(more, h) == Lookup(before, h).(vmsByCluster := Lookup(more, h).vmsByCluster) {
      assert Lookup(usage, h) == Lookup(before, h).(vmsByCluster := Lookup(usage, h).vmsByCluster);
    }
    forall h, c ensures MateCount(Lookup(more, h), c) == |VmsOf(vms, h, c) * (seen + {v})| {
      CountGrows(vms, seen, v, h, c);
      EntryGrows(usage, vms[v], h, c);
    }
  }

  lemma AllCounted(before: map<string, Usage>, vms: map<string, Vm>, usage: map<string, Usage>)
    requires WithCounts(before, vms, vms.Keys, usage)
    ensures forall h, c :: MateCount(Lookup(usage, h), c) == |VmsOf(vms, h, c)|
  {
    forall h, c ensures MateCount(Lookup(usage, h), c) == |VmsOf(vms, h, c)| {
      assert VmsOf(vms, h, c) * vms.Keys == VmsOf(vms, h, c);
    }
  }

  /** How many VMs of each cluster each host has. */
  method AddCounts(before: map<string, Usage>, vms: map<string, Vm>) returns (usage: map<string, Usage>)
    requires forall h :: Lookup(before, h).vmsByCluster == map[]
    ensures WithCounts(before, vms, vms.Keys, usage)
  {
    usage := before;
    var seen: set<string> := {};
    while seen != vms.Keys
      invariant seen <= vms.Keys && WithCounts(before, vms, seen, usage)
      decreases |vms.Keys - seen|
    {
      var v :| v in vms.Keys - seen;
      OneMoreCount(before, vms, seen, usage, v);
      usage := usage[vms[v].host := OneMore(Lookup(usage, vms[v].host), vms[v].cluster)];
      seen := seen + {v};
    }
  }

  /** Three queries, one after the other: sums, claims and counts are those of three states. */
  method HostUsageSnapshot(sumsAt: Tables, claimsAt: Tables, countsAt: Tables) returns (usage: map<string, Usage>)
    ensures forall h :: AccountsIn(sumsAt, claimsAt, countsAt, h, Lookup(usage, h))
  {
    var sums := SumsByHost(sumsAt.vms);
    var claimed := AddClaims(sums, claimsAt.gpus);
    usage := AddCounts(claimed, countsAt.vms);
    AllCounted(claimed, countsAt.vms, usage);
    forall h, r ensures Lookup(usage, h).Of(r) == Used(sumsAt.vms, h, r) {
      assert Lookup(usage, h).Of(r) == Lookup(claimed, h).Of(r) == Lookup(sums, h).Of(r);
    }
  }

  class Db {
    const ratio: Ratio
    var hosts: map<string, Host>
    var clusters: map<string, Cluster>
    var members: map<(string, string), Member>
    var vms: map<string, Vm>
    var gpus: set<GpuClaim>
    var disks: map<string, DiskRow>
    var ips: map<nat, Holding>

    ghost function View(): Tables
      reads this
    {
      Tables(hosts, clusters, members, vms, gpus, disks, ips)
    }

    constructor (overcommit: Ratio)
      requires overcommit.Valid()
      ensures View() == EMPTY && ratio == overcommit
    {
      ratio := overcommit;
      hosts, clusters, members, vms, gpus, disks, ips := map[], map[], map[], map[], {}, map[], map[];
    }

    // --- Cluster networks ---

    /** The VNIs and blocks in use, or nothing if a stored block does not parse. */
    method TakenNetworks() returns (vnis: set<nat>, cidrs: Option<seq<Cidr>>)
      ensures cidrs.Some? <==> Parses(View())
      ensures cidrs.Some? ==> vnis == UsedVnis(View())
      ensures cidrs.Some? ==> forall u :: u in cidrs.value <==> exists c :: c in clusters && clusters[c].net.cidr == u
    {
      vnis := {};
      var blocks: seq<Cidr> := [];
      var rest := clusters.Keys;
      while rest != {}
        invariant rest <= clusters.Keys
        invariant forall c :: c in clusters && c !in rest ==>
          clusters[c].net.cidr.Valid() && clusters[c].net.vni in vnis && clusters[c].net.cidr in blocks
        invariant forall v <- vnis :: v in UsedVnis(View())
        invariant forall u :: u in blocks ==> exists c :: c in clusters && clusters[c].net.cidr == u
        decreases |rest|
      {
        var c :| c in rest;
        rest := rest - {c};
        if !clusters[c].net.cidr.Valid() { return {}, None; }
        vnis := vnis + {clusters[c].net.vni};
        blocks := blocks + [clusters[c].net.cidr];
      }
      cidrs := Some(blocks);
    }

    method AllocateClusterNetwork(cfg: NetworkConfig) returns (r: Result<Network>)
      requires Carvable(cfg)
      ensures r.Ok? ==> Offered(cfg, View(), r.value)
      ensures r == Err(Malformed) <==> !Parses(View())
      ensures r.Err? && Parses(View()) ==> r.error == Exhausted
      ensures r == Err(Exhausted) ==> NoneLeft(cfg, View())
    {
      var vnis, cidrs := TakenNetworks();
      if cidrs.None? { return Err(Malformed); }
      var vni := cfg.vniStart;
      while vni <= cfg.vniEnd && vni in vnis
        invariant forall v :: cfg.vniStart <= v < vni ==> v in vnis
        decreases cfg.vniEnd + 1 - vni
      {
        vni := vni + 1;
      }
      if vni > cfg.vniEnd { return Err(Exhausted); }
      var k: nat := 0;
      while k < SubnetCount(cfg.supernet, cfg.clusterPrefix)
        invariant k <= SubnetCount(cfg.supernet, cfg.clusterPrefix)
        invariant forall j :: 0 <= j < k ==> !SubnetFree(cfg, View(), j)
      {
        SubnetBlock(cfg.supernet, cfg.clusterPrefix, k);
        var candidate := Subnet(cfg.supernet, cfg.clusterPrefix, k);
        if !exists u <- cidrs.value :: Overlap(u, candidate) {
          r := Ok(Carve(vni, candidate, cfg.bridgeReserve));
          assert SubnetFree(cfg, View(), k);
          assert OfferedAt(cfg, View(), r.value, k);
          return;
        }
        k := k + 1;
      }
      r := Err(Exhausted);
    }

    method InsertCluster(id: string, row: Cluster) returns (r: Result<()>)
      modifies this
      ensures (View(), r) == T.InsertCluster(old(View()), id, row)
    {
      if id in clusters || exists c :: c in clusters && clusters[c].name == row.name { return Err(Conflict); }
      if exists c :: c in clusters && clusters[c].net.vni == row.net.vni { return Err(AllocationRaced); }
      clusters := clusters[id := row];
      r := Ok(());
    }

    // --- Addresses ---

    method AllocateFromRange(scope: Scope, lo: nat, hi: nat, owner: Owner) returns (r: Result<nat>)
      modifies this`ips
      ensures (View(), r) == T.AllocateFromRange(old(View()), scope, lo, hi, owner)
    {
      ghost var taken := Taken(View(), scope);
      var n := lo;
      while true
        invariant lo <= n && (n <= hi || n == lo)
        invariant LowestFree(taken, lo, hi) == LowestFree(taken, n, hi)
        invariant View() == old(View())
        decreases hi - n
      {
        var held := n in ips && ips[n].scope == scope;
        var onHost := exists h :: h in hosts && hosts[h].address == Some(n);
        assert onHost <==> n in HostAddresses(View());
        if !held && !onHost { break; }
        if n >= hi { return Err(Exhausted); }
        n := n + 1;
      }
      if n in ips { return Err(Constraint); }
      ips := ips[n := Holding(scope, owner)];
      r := Ok(n);
    }

    method ReserveSpecificIp(scope: Scope, ip: nat, owner: Owner) returns (r: Result<()>)
      modifies this`ips
      ensures (View(), r) == T.ReserveSpecificIp(old(View()), scope, ip, owner)
    {
      if ip in ips { return Err(Conflict); }
      ips := ips[ip := Holding(scope, owner)];
      r := Ok(());
    }

    method ReleaseIps(owner: Owner)
      modifies this`ips
      ensures View() == T.ReleaseIps(old(View()), owner)
    {
      ips := map a | a in ips && ips[a].owner != owner :: ips[a];
    }

    static method SearchBlock(used: set<nat>, lo: nat, hi: nat, count: nat) returns (b: Option<nat>)
      requires count > 0
      ensures b == FindBlock(used, AlignUp(lo, count), count, hi)
    {
      var start := AlignUp(lo, count);
      while true
        invariant FindBlock(used, AlignUp(lo, count), count, hi) == FindBlock(used, start, count, hi)
        decreases ADDRESS_END - start
      {
        if start + count - 1 >= ADDRESS_END || start + count - 1 > hi { return None; }
        if forall n :: start <= n < start + count ==> n !in used { return Some(start); }
        if start + count >= ADDRESS_END { return None; }
        start := start + count;
      }
    }

    /** Address by address; a key violation rolls the transaction back. */
    method EnterBlock(start: nat, count: nat, h: Holding) returns (ok: bool)
      modifies this`ips
      ensures ok == !AnyHeld(old(ips), start, count)
      ensures ips == if ok then HoldAll(old(ips), start, count, h) else old(ips)
    {
      var before := ips;
      var n: nat := 0;
      while n < count
        invariant n <= count && ips == HoldAll(before, start, n, h) && !AnyHeld(before, start, n)
      {
        if start + n in ips {
          assert start + n in before;
          ips := before;
          return false;
        }
        ips := ips[start + n := h];
        n := n + 1;
      }
      ok := true;
    }

    method AllocateServiceBlock(scope: Scope, lo: nat, hi: nat, owner: Owner, count: nat) returns (r: Result<Cidr>)
      requires count < ADDRESS_END
      modifies this`ips
      ensures (View(), r) == AllocateBlock(old(View()), scope, lo, hi, owner, count)
    {
      if !IsPow2(count) { return Err(Malformed); }
      var onHosts := set h | h in hosts && hosts[h].address.Some? :: hosts[h].address.value;
      var inScope := set a | a in ips && ips[a].scope == scope;
      assert inScope + onHosts == Taken(View(), scope);
      var b := SearchBlock(inScope + onHosts, lo, hi, count);
      if b.None? { return Err(Exhausted); }
      var ok := EnterBlock(b.value, count, Holding(scope, owner));
      r := if ok then Ok(Cidr(b.value, BlockLen(count))) else Err(Constraint);
    }

    // --- Membership ---

    method EnsureHostClusterActive(c: string, h: string, lo: nat, hi: nat) returns (r: Result<nat>)
      modifies this`members
      ensures (View(), r) == EnsureActive(old(View()), c, h, lo, hi)
    {
      if (c, h) in members {
        members := members[(c, h) := members[(c, h)].(active := true)];
        return Ok(members[(c, h)].ip);
      }
      ghost var taken := MemberIps(View(), c);
      var n := lo;
      while true
        invariant lo <= n && (n <= hi || n == lo)
        invariant LowestFree(taken, lo, hi) == LowestFree(taken, n, hi)
        invariant View() == old(View())
        decreases hi - n
      {
        var held := exists k :: k in members && k.0 == c && members[k].ip == n;
        assert held <==> n in taken;
        if !held { break; }
        if n >= hi { return Err(Exhausted); }
        n := n + 1;
      }
      if c !in clusters || h !in hosts { return Err(Constraint); }
      members := members[(c, h) := Member(n, true)];
      r := Ok(n);
    }

    method MarkHostClusterPendingTeardown(c: string, h: string)
      modifies this`members
      ensures View() == MarkMemberPending(old(View()), c, h)
    {
      if (c, h) in members
         && !exists v :: v in vms && vms[v].cluster == c && vms[v].host == h && vms[v].state != PendingTeardown
      {
        members := members[(c, h) := members[(c, h)].(active := false)];
      }
    }

    method MarkClusterPendingTeardownAllHosts(c: string) returns (affected: set<string>)
      modifies this`members
      ensures View() == MarkClusterPending(old(View()), c)
      ensures affected == set k | k in members && k.0 == c :: k.1
    {
      members := map k | k in members :: if k.0 == c then members[k].(active := false) else members[k];
      affected := set k | k in members && k.0 == c :: k.1;
    }

    // --- VMs ---

    method UpdateVmState(v: string, state: VmState) returns (r: Result<()>)
      modifies this`vms
      ensures View() == SetVmState(old(View()), v, state)
      ensures r == if v in old(vms) then Ok(()) else Err(NotFound)
    {
      if v !in vms { return Err(NotFound); }
      vms := vms[v := vms[v].(state := state)];
      r := Ok(());
    }

    method MarkVmsFailedOnHost(h: string)
      modifies this`vms
      ensures View() == MarkVmsFailed(old(View()), h)
    {
      vms := map v | v in vms ::
        if vms[v].host == h && vms[v].state !in {Stopped, Failed} then vms[v].(state := Failed) else vms[v];
    }

    // --- Placement commit ---

    method CapacityGate(vm: Vm) returns (ok: bool)
      requires ratio.Valid()
      ensures ok == Admits(View(), ratio, vm)
    {
      if vm.host !in hosts || !hosts[vm.host].healthy { return false; }
      var host := hosts[vm.host];
      var cpu := SumOnHost(vms, vm.host, Cpu);
      var memory := SumOnHost(vms, vm.host, Memory);
      var rootfs := SumOnHost(vms, vm.host, Rootfs);
      var data := SumOnHost(vms, vm.host, Data);
      ok := && ratio.Scale(host.cpu) - cpu >= vm.cpu
            && host.memory - memory >= vm.memory
            && host.rootfsBytes - rootfs * GIB >= vm.rootfsGib * GIB
            && host.dataBytes - data * GIB >= NeedBytes(vm.dataGib % U64_END);
    }

    method EnterGpus(id: string, h: string, pcis: seq<string>) returns (ok: bool)
      modifies this`gpus
      ensures ok == ClaimGpus(old(gpus), id, h, pcis).Some?
      ensures ok ==> gpus == ClaimGpus(old(gpus), id, h, pcis).value
    {
      var i := 0;
      assert pcis[0..] == pcis;
      while i < |pcis|
        invariant 0 <= i <= |pcis|
        invariant ClaimGpus(old(gpus), id, h, pcis) == ClaimGpus(gpus, id, h, pcis[i..])
      {
        assert pcis[i..][1..] == pcis[i + 1..];
        if GpuTaken(gpus, id, h, pcis[i]) { return false; }
        gpus := gpus + {GpuClaim(id, h, pcis[i])};
        i := i + 1;
      }
      ok := true;
    }

    method EnterDisks(rows: seq<DiskRow>) returns (ok: bool)
      modifies this`disks
      ensures ok == T.EnterDisks(old(disks), rows).Some?
      ensures ok ==> disks == T.EnterDisks(old(disks), rows).value
    {
      var i := 0;
      assert rows[0..] == rows;
      while i < |rows|
        invariant 0 <= i <= |rows|
        invariant T.EnterDisks(old(disks), rows) == T.EnterDisks(disks, rows[i..])
      {
        assert rows[i..][1..] == rows[i + 1..];
        if DiskTaken(disks, rows[i].key) { return false; }
        disks := disks[AssignmentId(rows[i].key) := rows[i]];
        i := i + 1;
      }
      ok := true;
    }

    /** The gated insert, the GPU rows and the disk rows in one transaction. */
    method InsertVm(id: string, vm: Vm, pcis: seq<string>, rows: seq<DiskRow>) returns (r: Result<()>)
      requires ratio.Valid()
      modifies this
      ensures (View(), r) == T.InsertVm(old(View()), ratio, id, vm, pcis, rows)
    {
      var gate := CapacityGate(vm);
      if !gate {
        return Err(if vm.host in hosts && hosts[vm.host].healthy then CapacityRaced else HostUnavailable);
      }
      if id in vms || exists v :: v in vms && vms[v].cluster == vm.cluster && vms[v].name == vm.name {
        return Err(Conflict);
      }
      if vm.cluster !in clusters { return Err(Constraint); }
      var vms0, gpus0, disks0 := vms, gpus, disks;
      vms := vms[id := vm];
      var ok := EnterGpus(id, vm.host, pcis);
      if ok { ok := EnterDisks(rows); }
      if !ok {
        vms, gpus, disks := vms0, gpus0, disks0;   // the transaction rolls back
        return Err(CapacityRaced);
      }
      r := Ok(());
    }

    // --- Tombstone acknowledgements ---

    method AckVmTombstones(h: string, ids: seq<string>)
      modifies this
      ensures View() == AckVms(old(View()), h, ids)
    {
      var i := 0;
      assert ids[0..] == ids;
      while i < |ids|
        invariant 0 <= i <= |ids|
        invariant AckVms(old(View()), h, ids) == AckVms(View(), h, ids[i..])
      {
        assert ids[i..][1..] == ids[i + 1..];
        ghost var s := View();
        var v := ids[i];
        ips := map a | a in ips && ips[a].owner != OfVm(v) :: ips[a];
        if v in vms && vms[v].host == h && vms[v].state == PendingTeardown {
          vms := vms - {v};
          gpus := set g | g in gpus && g.vm != v;
        }
        assert View() == AckVm(s, h, v);
        i := i + 1;
      }
    }

    method AckClusterTombstone(h: string, c: string)
      modifies this
      ensures View() == AckCluster(old(View()), h, c)
    {
      if (c, h) in members && !members[(c, h)].active { members := members - {(c, h)}; }
      assert View() == DropPendingMember(old(View()), h, c);
      if !((exists k :: k in members && k.0 == c) || (exists v :: v in vms && vms[v].cluster == c)) {
        ips := map a | a in ips && ips[a].owner != OfCluster(c) :: ips[a];
        clusters := clusters - {c};
      }
    }

    method AckTombstones(h: string, vnis: seq<nat>, ids: seq<string>)
      requires UniqueClusters(View())
      modifies this
      ensures View() == Ack(old(View()), h, vnis, ids)
    {
      if vnis == [] && ids == [] { return; }
      AckVmTombstones(h, ids);
      ghost var s := View();
      assert UniqueClusters(s) by { AckVmsDeletes(old(View()), h, ids); }
      var i := 0;
      assert vnis[0..] == vnis;
      while i < |vnis|
        invariant 0 <= i <= |vnis| && UniqueClusters(View())
        invariant AckVnis(s, h, vnis) == AckVnis(View(), h, vnis[i..])
      {
        assert vnis[i..][1..] == vnis[i + 1..];
        ghost var t := View();
        if c :| c in clusters && clusters[c].net.vni == vnis[i] {
          AckVniIs(t, h, vnis[i], c);
          AckClusterTombstone(h, c);
        }
        assert View() == AckVni(t, h, vnis[i]);
        AckVniDeletes(t, h, vnis[i]);
        i := i + 1;
      }
    }
  }
}
