/**
 Runs of the controller.

 A step is one transaction of the database; steps interleave in any way, and a
 caller may act on what it read in any earlier state of the run. `Legal` says
 what the callers see to; everything else about a step is arbitrary.
 */
module Controller {
  import opened Ipv4
  import opened Naming
  import opened Config
  import opened Tables
  import opened Networks
  import opened ServiceBlocks
  import opened Teardown

  datatype Step =
    | HostPut(host: string, report: Host)
    | ClusterInsert(cluster: string, row: Cluster, at: nat)
    | ClusterDelete(cluster: string)
    | IpsRelease(owner: Owner)
    | VipAllocate(pool: Pool, cluster: string)
    | BlockAllocate(pool: Pool, cluster: string, count: nat)
    | EndpointReserve(cluster: string, net: Network, at: nat)
    | VmIpAllocate(cluster: string, net: Network, vm: string, at: nat)
    | MemberActivate(cluster: string, net: Network, host: string, at: nat)
    | MemberRetire(cluster: string, host: string)
    | ClusterRetire(cluster: string)
    | VmInsert(vm: string, entry: Vm, pcis: seq<string>, rows: seq<DiskRow>)
    | VmReport(vm: string, state: VmState)
    | VmsFail(host: string)
    | TombstoneAck(host: string, vnis: seq<nat>, vms: seq<string>)

  /** What a pool that passed validation, a 32-bit count, a carved network and a 64-bit column look like. */
  predicate Typed(step: Step) {
    match step
    case HostPut(_, report) => report.dataBytes < I64_END
    case VipAllocate(p, _) => p.cidr.Valid() && p.cidr.len < 31
    case BlockAllocate(p, _, count) => p.cidr.Valid() && p.cidr.len < 31 && count < ADDRESS_END
    case EndpointReserve(_, n, _) => n.cidr.Valid() && n.cidr.len <= 30
    case _ => true
  }

  ghost function Apply(ratio: Ratio, s: Tables, step: Step): Tables
    requires ratio.Valid() && Typed(step)
  {
    match step
    case HostPut(h, report) => PutHost(s, h, report)
    case ClusterInsert(c, row, _) => InsertCluster(s, c, row).0
    case ClusterDelete(c) => DeleteCluster(s, c)
    case IpsRelease(o) => ReleaseIps(s, o)
    case VipAllocate(p, c) => AllocateFromRange(s, PoolScope(p.name), PoolLow(p.cidr), PoolHigh(p.cidr), OfCluster(c)).0
    case BlockAllocate(p, c, n) => AllocateBlock(s, PoolScope(p.name), PoolLow(p.cidr), PoolHigh(p.cidr), OfCluster(c), n).0
    case EndpointReserve(c, n, _) => ReserveSpecificIp(s, ClusterScope(c), PrivateEndpoint(n), OfCluster(c)).0
    case VmIpAllocate(c, n, v, _) => AllocateFromRange(s, ClusterScope(c), n.vmStart, n.vmEnd, OfVm(v)).0
    case MemberActivate(c, n, h, _) => EnsureActive(s, c, h, n.bridgeStart, n.bridgeEnd).0
    case MemberRetire(c, h) => MarkMemberPending(s, c, h)
    case ClusterRetire(c) => MarkClusterPending(s, c)
    case VmInsert(v, vm, pcis, rows) => InsertVm(s, ratio, v, vm, pcis, rows).0
    case VmReport(v, st) => SetVmState(s, v, st)
    case VmsFail(h) => MarkVmsFailed(s, h)
    case TombstoneAck(h, vnis, vms) => Ack(s, h, vnis, vms)
  }

  /** The caller read cluster `c` with network `n` in an earlier or the present state. */
  ghost predicate HasRead(tr: seq<Tables>, i: nat, at: nat, c: string, n: Network)
    requires i < |tr|
  {
    at <= i && c in tr[at].clusters && tr[at].clusters[c].net == n
  }

  ghost predicate NeverSeen(tr: seq<Tables>, i: nat, c: string)
    requires i < |tr|
  {
    forall j :: 0 <= j <= i ==> c !in tr[j].clusters
  }

  /**
   A cluster is inserted under a new identifier with a network offered on some
   earlier state; addresses come from a configured pool, from such an offer, or
   from the network of a cluster that was read.
   */
  ghost predicate Legal(cfg: NetworkConfig, tr: seq<Tables>, i: nat, step: Step)
    requires Carvable(cfg) && i < |tr|
  {
    && Typed(step)
    && match step
       case ClusterInsert(c, row, at) => at <= i && Offered(cfg, tr[at], row.net) && NeverSeen(tr, i, c)
       case VipAllocate(p, _) => p in cfg.pools
       case BlockAllocate(p, _, _) => p in cfg.pools
       case EndpointReserve(c, n, at) => at <= i && Offered(cfg, tr[at], n) && NeverSeen(tr, i, c)
       case VmIpAllocate(c, n, _, at) => HasRead(tr, i, at, c, n)
       case MemberActivate(c, n, _, at) => HasRead(tr, i, at, c, n)
       case _ => true
  }

  ghost predicate Run(cfg: NetworkConfig, ratio: Ratio, tr: seq<Tables>, steps: seq<Step>)
    requires Carvable(cfg) && ratio.Valid()
  {
    && |tr| == |steps| + 1
    && forall i :: 0 <= i < |steps| ==> Legal(cfg, tr, i, steps[i]) && tr[i + 1] == Apply(ratio, tr[i], steps[i])
  }

  const EMPTY := Tables(map[], map[], map[], map[], {}, map[], map[])

  // --- What each kind of step leaves alone ---

  predicate OnlyAddresses(step: Step) {
    step.IpsRelease? || step.VipAllocate? || step.BlockAllocate? || step.EndpointReserve? || step.VmIpAllocate?
  }

  predicate OnlyVms(step: Step) {
    step.VmInsert? || step.VmReport? || step.VmsFail?
  }

  lemma AddressStep(ratio: Ratio, s: Tables, step: Step)
    requires ratio.Valid() && Typed(step) && OnlyAddresses(step)
    ensures Apply(ratio, s, step) == s.(ips := Apply(ratio, s, step).ips)
  {
  }

  lemma VmStep(ratio: Ratio, s: Tables, step: Step)
    requires ratio.Valid() && Typed(step) && OnlyVms(step)
    ensures var t := Apply(ratio, s, step); t == s.(vms := t.vms, gpus := t.gpus, disks := t.disks)
  {
  }

  // --- Declared constraints hold in every run ---

  ghost predicate UniqueClaims(gpus: set<GpuClaim>) {
    forall g, h :: g in gpus && h in gpus && g.host == h.host && g.pci == h.pci ==> g == h
  }

  lemma {:induction false} ClaimKeepsUnique(gpus: set<GpuClaim>, vm: string, h: string, pcis: seq<string>)
    requires UniqueClaims(gpus)
    ensures var r := ClaimGpus(gpus, vm, h, pcis);
      r.Some? ==> UniqueClaims(r.value) && gpus <= r.value && forall g <- r.value :: g in gpus || (g.vm == vm && g.host == h)
    decreases |pcis|
  {
    if pcis != [] && !GpuTaken(gpus, vm, h, pcis[0]) {
      ClaimKeepsUnique(gpus + {GpuClaim(vm, h, pcis[0])}, vm, h, pcis[1..]);
    }
  }

  lemma {:induction false} EnterKeepsKeys(disks: map<string, DiskRow>, rows: seq<DiskRow>)
    requires forall id :: id in disks ==> id == AssignmentId(disks[id].key)
    ensures var r := EnterDisks(disks, rows); r.Some? ==> forall id :: id in r.value ==> id == AssignmentId(r.value[id].key)
    decreases |rows|
  {
    if rows != [] && !DiskTaken(disks, rows[0].key) {
      EnterKeepsKeys(disks[AssignmentId(rows[0].key) := rows[0]], rows[1..]);
    }
  }

  lemma InsertVmKeepsSchema(s: Tables, ratio: Ratio, id: string, vm: Vm, pcis: seq<string>, rows: seq<DiskRow>)
    requires ratio.Valid() && Schema(s) && InsertVm(s, ratio, id, vm, pcis, rows).1.Ok?
    ensures Schema(InsertVm(s, ratio, id, vm, pcis, rows).0)
  {
    var t := InsertVm(s, ratio, id, vm, pcis, rows).0;
    ClaimKeepsUnique(s.gpus, id, vm.host, pcis);
    EnterKeepsKeys(s.disks, rows);
    assert GpusRefer(t) by {
      forall g <- t.gpus ensures g.vm in t.vms && t.vms[g.vm].host == g.host {
        assert g in s.gpus || (g.vm == id && g.host == vm.host);
      }
    }
    assert VmsRefer(t) && UniqueVmNames(t);
    assert t.disks == EnterDisks(s.disks, rows).value;
    assert MembersRefer(t) && DisksKeyed(t);
  }

  lemma NewMemberIsUnique(s: Tables, c: string, h: string, ip: nat)
    requires UniqueMemberIps(s) && (c, h) !in s.members && ip !in MemberIps(s, c)
    ensures UniqueMemberIps(s.(members := s.members[(c, h) := Member(ip, true)]))
  {
    assert forall g :: (c, g) in s.members ==> s.members[(c, g)].ip in MemberIps(s, c);
  }

  lemma ActivationKeepsUnique(s: Tables, c: string, h: string, active: bool)
    requires UniqueMemberIps(s) && (c, h) in s.members
    ensures UniqueMemberIps(s.(members := s.members[(c, h) := s.members[(c, h)].(active := active)]))
  {
  }

  lemma EnsureActiveKeepsSchema(s: Tables, c: string, h: string, lo: nat, hi: nat)
    requires Schema(s)
    ensures Schema(EnsureActive(s, c, h, lo, hi).0)
  {
    if (c, h) in s.members {
      ActivationKeepsUnique(s, c, h, true);
    } else if EnsureActive(s, c, h, lo, hi).1.Ok? {
      NewMemberIsUnique(s, c, h, EnsureActive(s, c, h, lo, hi).1.value);
    }
  }

  /** A cluster row is refused exactly when it would break a key or a unique column. */
  lemma InsertClusterIff(s: Tables, id: string, row: Cluster)
    requires UniqueClusters(s)
    ensures var (t, r) := InsertCluster(s, id, row);
      var with := s.(clusters := s.clusters[id := row]);
      && (r.Ok? <==> id !in s.clusters && UniqueClusters(with))
      && t == (if r.Ok? then with else s)
      && (r == Err(Conflict) <==> id in s.clusters || exists c :: c in s.clusters && s.clusters[c].name == row.name)
      && (r == Err(AllocationRaced) <==>
            && id !in s.clusters && (forall c :: c in s.clusters ==> s.clusters[c].name != row.name)
            && exists c :: c in s.clusters && s.clusters[c].net.vni == row.net.vni)
  {
    var with := s.(clusters := s.clusters[id := row]);
    if c :| id !in s.clusters && c in s.clusters
            && (s.clusters[c].name == row.name || s.clusters[c].net.vni == row.net.vni) {
      assert c in with.clusters && id in with.clusters && with.clusters[c] == s.clusters[c];
    }
  }

  /** A cluster row is deleted exactly when no reference would be left dangling. */
  lemma DeleteClusterIff(s: Tables, c: string)
    requires MembersRefer(s) && VmsRefer(s) && c in s.clusters
    ensures var without := s.(clusters := s.clusters - {c});
      DeleteCluster(s, c) == if MembersRefer(without) && VmsRefer(without) then without else s
  {
    if Referenced(s, c) {
      if k :| k in s.members && k.0 == c {
        assert k.0 !in s.clusters - {c};
      } else {
        var v :| v in s.vms && s.vms[v].cluster == c;
        assert s.vms[v].cluster !in s.clusters - {c};
      }
    }
  }

  lemma DeleteClusterKeepsSchema(s: Tables, c: string)
    requires Schema(s)
    ensures Schema(DeleteCluster(s, c))
  {
    var t := DeleteCluster(s, c);
    if !Referenced(s, c) {
      assert forall k :: k in s.members ==> k.0 != c;
      assert forall v :: v in s.vms ==> s.vms[v].cluster != c;
    }
    assert MembersRefer(t) && VmsRefer(t) && UniqueClusters(t);
    assert GpusRefer(t) && UniqueMemberIps(t) && UniqueVmNames(t);
  }

  lemma MarkMemberKeepsSchema(s: Tables, c: string, h: string)
    requires Schema(s)
    ensures Schema(MarkMemberPending(s, c, h))
  {
    if (c, h) in s.members { ActivationKeepsUnique(s, c, h, false); }
  }

  lemma MarkClusterKeepsSchema(s: Tables, c: string)
    requires Schema(s)
    ensures Schema(MarkClusterPending(s, c))
  {
    assert UniqueMemberIps(MarkClusterPending(s, c));
  }

  /** Two VM tables that differ in states only. */
  ghost predicate SameVms(vms: map<string, Vm>, to: map<string, Vm>) {
    vms.Keys == to.Keys && forall v :: v in vms ==> to[v] == vms[v].(state := to[v].state)
  }

  lemma StatesKeepSchema(s: Tables, vms: map<string, Vm>)
    requires Schema(s) && SameVms(s.vms, vms)
    ensures Schema(s.(vms := vms))
  {
    var t := s.(vms := vms);
    assert GpusRefer(t) by {
      forall g <- t.gpus ensures g.vm in t.vms && t.vms[g.vm].host == g.host { assert g.vm in s.vms; }
    }
    assert VmsRefer(t) && UniqueVmNames(t);
  }

  lemma InsertClusterKeepsSchema(s: Tables, c: string, row: Cluster)
    requires Schema(s)
    ensures Schema(InsertCluster(s, c, row).0)
  {
    InsertClusterIff(s, c, row);
    var t := InsertCluster(s, c, row).0;
    assert MembersRefer(t) && VmsRefer(t) && UniqueClusters(t);
    assert GpusRefer(t) && UniqueMemberIps(t) && UniqueVmNames(t);
  }

  /** A host row is refused exactly when another host has its name. */
  lemma PutHostIff(s: Tables, h: string, report: Host)
    requires UniqueHosts(s)
    ensures var with := s.(hosts := s.hosts[h := report]); PutHost(s, h, report) == if UniqueHosts(with) then with else s
  {
    var with := s.(hosts := s.hosts[h := report]);
    if g :| g in s.hosts && g != h && s.hosts[g].name == report.name {
      assert g in with.hosts && h in with.hosts && with.hosts[g] == s.hosts[g];
    }
  }

  lemma PutHostKeepsSchema(s: Tables, h: string, report: Host)
    requires Schema(s)
    ensures Schema(PutHost(s, h, report))
  {
    PutHostIff(s, h, report);
    var t := PutHost(s, h, report);
    assert MembersRefer(t) && VmsRefer(t) && UniqueHosts(t);
    assert GpusRefer(t) && UniqueMemberIps(t) && UniqueVmNames(t) && UniqueClusters(t);
  }

  lemma AddressesKeepSchema(s: Tables, ips: map<nat, Holding>)
    requires Schema(s)
    ensures Schema(s.(ips := ips))
  {
  }

  lemma StepKeepsSchema(ratio: Ratio, s: Tables, step: Step)
    requires ratio.Valid() && Typed(step) && Schema(s)
    ensures Schema(Apply(ratio, s, step))
  {
    var t := Apply(ratio, s, step);
    if OnlyAddresses(step) {
      AddressStep(ratio, s, step);
      AddressesKeepSchema(s, t.ips);
    } else if OnlyVms(step) {
      VmStepKeepsSchema(ratio, s, step);
    } else {
      match step
      case HostPut(h, report) => PutHostKeepsSchema(s, h, report);
      case ClusterInsert(c, row, _) => InsertClusterKeepsSchema(s, c, row);
      case ClusterDelete(c) => DeleteClusterKeepsSchema(s, c);
      case MemberActivate(c, n, h, _) => EnsureActiveKeepsSchema(s, c, h, n.bridgeStart, n.bridgeEnd);
      case MemberRetire(c, h) => MarkMemberKeepsSchema(s, c, h);
      case ClusterRetire(c) => MarkClusterKeepsSchema(s, c);
      case TombstoneAck(h, vnis, vms) =>
        AckDeletesOnlyPending(s, h, vnis, vms);
        DeletionKeepsSchema(s, t, h);
    }
  }

  lemma VmStepKeepsSchema(ratio: Ratio, s: Tables, step: Step)
    requires ratio.Valid() && Typed(step) && Schema(s) && OnlyVms(step)
    ensures Schema(Apply(ratio, s, step))
  {
    if step.VmInsert? {
      if InsertVm(s, ratio, step.vm, step.entry, step.pcis, step.rows).1.Ok? {
        InsertVmKeepsSchema(s, ratio, step.vm, step.entry, step.pcis, step.rows);
      }
    } else {
      ReportStep(ratio, s, step);
      StatesKeepSchema(s, Apply(ratio, s, step).vms);
    }
  }

  lemma ReportStep(ratio: Ratio, s: Tables, step: Step)
    requires ratio.Valid() && (step.VmReport? || step.VmsFail?)
    ensures var t := Apply(ratio, s, step); t == s.(vms := t.vms) && SameVms(s.vms, t.vms)
  {
    assert Apply(ratio, s, step).vms.Keys == s.vms.Keys;
  }

  /** References, keys and unique columns are intact in every state of every run. */
  lemma {:induction false} RunKeepsSchema(cfg: NetworkConfig, ratio: Ratio, tr: seq<Tables>, steps: seq<Step>, i: nat)
    requires Carvable(cfg) && ratio.Valid() && Run(cfg, ratio, tr, steps) && Schema(tr[0]) && i < |tr|
    ensures Schema(tr[i])
  {
    if i > 0 {
      RunKeepsSchema(cfg, ratio, tr, steps, i - 1);
      StepKeepsSchema(ratio, tr[i - 1], steps[i - 1]);
    }
  }

  // --- Cluster networks ---

  lemma ClusterRowsCome(ratio: Ratio, s: Tables, step: Step, c: string)
    requires ratio.Valid() && Typed(step) && c in Apply(ratio, s, step).clusters
    ensures var t := Apply(ratio, s, step);
      || (c in s.clusters && t.clusters[c] == s.clusters[c])
      || (step.ClusterInsert? && step.cluster == c && c !in s.clusters && t.clusters[c] == step.row)
  {
    if OnlyAddresses(step) {
      AddressStep(ratio, s, step);
    } else if OnlyVms(step) {
      VmStep(ratio, s, step);
    } else if step.TombstoneAck? {
      AckDeletesOnlyPending(s, step.host, step.vnis, step.vms);
    }
  }

  /** Every cluster of every state has a paired network, however stale the states the networks were chosen on. */
  lemma {:induction false} RunKeepsPairs(cfg: NetworkConfig, ratio: Ratio, tr: seq<Tables>, steps: seq<Step>, i: nat)
    requires Carvable(cfg) && ratio.Valid() && Run(cfg, ratio, tr, steps) && Paired(cfg, tr[0]) && i < |tr|
    ensures Paired(cfg, tr[i])
    decreases i
  {
    if i > 0 {
      var step := steps[i - 1];
      assert Legal(cfg, tr, i - 1, step);
      RunKeepsPairs(cfg, ratio, tr, steps, i - 1);
      if step.ClusterInsert? {
        RunKeepsPairs(cfg, ratio, tr, steps, step.at);
        OfferIsPair(cfg, tr[step.at], step.row.net);
      }
      forall c | c in tr[i].clusters ensures exists k: nat :: IsPair(cfg, tr[i].clusters[c].net, k) {
        ClusterRowsCome(ratio, tr[i - 1], step, c);
      }
    }
  }

  /** In every state of every run, no two clusters share an address. */
  lemma ClusterBlocksStayDisjoint(cfg: NetworkConfig, ratio: Ratio, tr: seq<Tables>, steps: seq<Step>, i: nat,
                                  a: string, b: string)
    requires Carvable(cfg) && ratio.Valid() && Run(cfg, ratio, tr, steps) && tr[0] == EMPTY && i < |tr|
    requires a in tr[i].clusters && b in tr[i].clusters && a != b
    ensures tr[i].clusters[a].net.cidr.Valid() && tr[i].clusters[b].net.cidr.Valid()
    ensures Disjoint(tr[i].clusters[a].net.cidr, tr[i].clusters[b].net.cidr)
  {
    RunKeepsSchema(cfg, ratio, tr, steps, i);
    RunKeepsPairs(cfg, ratio, tr, steps, i);
    PairedAreDisjoint(cfg, tr[i], a, b);
  }

  /** A cluster that was read and is still there has not changed. */
  lemma {:induction false} RowsPersist(cfg: NetworkConfig, ratio: Ratio, tr: seq<Tables>, steps: seq<Step>,
                                       at: nat, i: nat, c: string)
    requires Carvable(cfg) && ratio.Valid() && Run(cfg, ratio, tr, steps) && at <= i < |tr|
    requires c in tr[at].clusters && c in tr[i].clusters
    ensures tr[at].clusters[c] == tr[i].clusters[c]
    decreases i
  {
    if at < i {
      assert Legal(cfg, tr, i - 1, steps[i - 1]);
      ClusterRowsCome(ratio, tr[i - 1], steps[i - 1], c);
      if c in tr[i - 1].clusters { RowsPersist(cfg, ratio, tr, steps, at, i - 1, c); }
    }
  }

  // --- Bridge addresses ---

  predicate LeavesMembers(step: Step) {
    !step.MemberActivate? && !step.MemberRetire? && !step.ClusterRetire? && !step.TombstoneAck?
  }

  lemma MembersStay(ratio: Ratio, s: Tables, step: Step)
    requires ratio.Valid() && Typed(step) && LeavesMembers(step)
    ensures Apply(ratio, s, step).members == s.members
  {
    if OnlyAddresses(step) {
      AddressStep(ratio, s, step);
    } else if OnlyVms(step) {
      VmStep(ratio, s, step);
    }
  }

  lemma MarkingKeepsAddresses(ratio: Ratio, s: Tables, step: Step)
    requires ratio.Valid() && (step.MemberRetire? || step.ClusterRetire?)
    ensures var t := Apply(ratio, s, step);
      t.members.Keys == s.members.Keys && forall k :: k in s.members ==> t.members[k].ip == s.members[k].ip
  {
  }

  lemma ActivationKeepsAddresses(ratio: Ratio, s: Tables, step: Step)
    requires ratio.Valid() && step.MemberActivate?
    ensures var t := Apply(ratio, s, step);
      forall k :: k in s.members ==> k in t.members && t.members[k].ip == s.members[k].ip
  {
  }

  lemma ActivatedRowComes(ratio: Ratio, s: Tables, step: Step, k: (string, string))
    requires ratio.Valid() && step.MemberActivate? && k in Apply(ratio, s, step).members && k !in s.members
    ensures k == (step.cluster, step.host) && k.0 in s.clusters
    ensures LowestFree(MemberIps(s, k.0), step.net.bridgeStart, step.net.bridgeEnd) == Some(Apply(ratio, s, step).members[k].ip)
  {
  }

  lemma MemberRowsCome(ratio: Ratio, s: Tables, step: Step, k: (string, string))
    requires ratio.Valid() && Typed(step) && k in Apply(ratio, s, step).members
    ensures var t := Apply(ratio, s, step);
      || (k in s.members && t.members[k].ip == s.members[k].ip)
      || (step.MemberActivate? && k == (step.cluster, step.host) && k.0 in s.clusters
          && LowestFree(MemberIps(s, k.0), step.net.bridgeStart, step.net.bridgeEnd) == Some(t.members[k].ip))
  {
    if LeavesMembers(step) {
      MembersStay(ratio, s, step);
    } else if step.MemberRetire? || step.ClusterRetire? {
      MarkingKeepsAddresses(ratio, s, step);
    } else if step.MemberActivate? {
      ActivationKeepsAddresses(ratio, s, step);
      if k !in s.members { ActivatedRowComes(ratio, s, step, k); }
    } else {
      AckDeletesOnlyPending(s, step.host, step.vnis, step.vms);
    }
  }

  /** A membership row ends exactly when its own host names the cluster's VNI while the row is pending. */
  lemma MemberRowGoesIff(ratio: Ratio, s: Tables, step: Step, k: (string, string))
    requires ratio.Valid() && Typed(step) && UniqueClusters(s) && MembersRefer(s) && k in s.members
    ensures k !in Apply(ratio, s, step).members <==>
      step.TombstoneAck? && step.host == k.1 && !s.members[k].active && s.clusters[k.0].net.vni in step.vnis
  {
    if LeavesMembers(step) {
      MembersStay(ratio, s, step);
    } else if step.MemberRetire? || step.ClusterRetire? {
      MarkingKeepsAddresses(ratio, s, step);
    } else if step.MemberActivate? {
      ActivationKeepsAddresses(ratio, s, step);
    } else {
      AckedMemberIff(s, step.host, step.vnis, step.vms, k);
    }
  }

  lemma AckedMemberIff(s: Tables, h: string, vnis: seq<nat>, vms: seq<string>, k: (string, string))
    requires UniqueClusters(s) && MembersRefer(s) && k in s.members
    ensures k !in Ack(s, h, vnis, vms).members <==> h == k.1 && !s.members[k].active && s.clusters[k.0].net.vni in vnis
  {
    AckDeletesOnlyPending(s, h, vnis, vms);
    var own, t := s.clusters[k.0].net.vni, AckVms(s, h, vms);
    AckVmsKeepRest(s, h, vms);
    if own !in vnis {
      AckVnisOther(t, h, vnis, k.0, own);
    } else if h == k.1 && !s.members[k].active {
      AckVnisDropPending(t, h, vnis, k.0, own);
    }
  }

  /** Some VM of the cluster on the host is not pending. */
  ghost predicate LiveOn(s: Tables, c: string, h: string) {
    exists v :: v in s.vms && s.vms[v].cluster == c && s.vms[v].host == h && s.vms[v].state != PendingTeardown
  }

  lemma RetirementFollows(s: Tables, c: string, h: string, k: (string, string))
    requires k in s.members
    ensures var t := MarkMemberPending(s, c, h);
      && k in t.members && t.members[k].ip == s.members[k].ip
      && (t.members[k].active <==> s.members[k].active && (k != (c, h) || LiveOn(s, c, h)))
  {
  }

  lemma ActivationFollows(s: Tables, c: string, h: string, lo: nat, hi: nat, k: (string, string))
    requires k in s.members
    ensures var t := EnsureActive(s, c, h, lo, hi).0;
      k in t.members && t.members[k] == if k == (c, h) then s.members[k].(active := true) else s.members[k]
  {
  }

  /**
   What a step does to a membership that it leaves there: the address stays;
   the row is active after its own activation, after its own retirement if a VM
   of the pair is not pending, not after its cluster's, and else as before.
   */
  lemma MembershipFollows(ratio: Ratio, s: Tables, step: Step, k: (string, string))
    requires ratio.Valid() && Typed(step) && k in s.members && k in Apply(ratio, s, step).members
    ensures var m, n := s.members[k], Apply(ratio, s, step).members[k];
      && n.ip == m.ip
      && (n.active <==>
            if step.MemberActivate? && (step.cluster, step.host) == k then true
            else if step == MemberRetire(k.0, k.1) then m.active && LiveOn(s, k.0, k.1)
            else m.active && step != ClusterRetire(k.0))
  {
    if LeavesMembers(step) {
      MembersStay(ratio, s, step);
    } else if step.MemberActivate? {
      ActivationFollows(s, step.cluster, step.host, step.net.bridgeStart, step.net.bridgeEnd, k);
    } else if step.MemberRetire? {
      RetirementFollows(s, step.cluster, step.host, k);
    } else if step.ClusterRetire? {
      ClusterRetiresIff(s, step.cluster);
    } else {
      AckDeletesOnlyPending(s, step.host, step.vnis, step.vms);
    }
  }

  lemma LeavesVms(ratio: Ratio, s: Tables, step: Step)
    requires ratio.Valid() && Typed(step) && !OnlyVms(step) && !step.TombstoneAck?
    ensures Apply(ratio, s, step).vms == s.vms
  {
    if OnlyAddresses(step) { AddressStep(ratio, s, step); }
  }

  lemma InsertLeavesRow(s: Tables, ratio: Ratio, id: string, vm: Vm, pcis: seq<string>, rows: seq<DiskRow>, v: string)
    requires ratio.Valid() && v in s.vms
    ensures var t := InsertVm(s, ratio, id, vm, pcis, rows).0; v in t.vms && t.vms[v] == s.vms[v]
  {
  }

  /** And to a VM row: only its state changes, and only by its own report or the failure of its host. */
  lemma VmRowFollows(ratio: Ratio, s: Tables, step: Step, v: string)
    requires ratio.Valid() && Typed(step) && v in s.vms && v in Apply(ratio, s, step).vms
    ensures var vm := s.vms[v];
      Apply(ratio, s, step).vms[v] ==
        vm.(state := if step.VmReport? && step.vm == v then step.state
                     else if step == VmsFail(vm.host) && vm.state != Stopped then Failed else vm.state)
  {
    if step.VmInsert? {
      InsertLeavesRow(s, ratio, step.vm, step.entry, step.pcis, step.rows, v);
    } else if step.VmsFail? {
      HostFailureIff(s, step.host);
    } else if step.TombstoneAck? {
      AckDeletesOnlyPending(s, step.host, step.vnis, step.vms);
    } else if !step.VmReport? {
      LeavesVms(ratio, s, step);
    }
  }

  /** A host of the cluster has the bridge address. */
  ghost predicate BridgeUsed(s: Tables, c: string, a: nat) {
    exists h :: (c, h) in s.members && s.members[(c, h)].ip == a
  }

  ghost predicate FirstBridge(s: Tables, c: string, lo: nat, hi: nat, a: nat) {
    Candidate(lo, hi, a) && !BridgeUsed(s, c, a) && forall n: nat :: Candidate(lo, hi, n) && n < a ==> BridgeUsed(s, c, n)
  }

  /**
   Activation: a row that is there keeps its address and becomes active; a new
   one gets the lowest bridge address no host of the cluster has, and Exhausted
   is reported exactly when there is none. No other row changes.
   */
  lemma ActivationIff(s: Tables, c: string, h: string, lo: nat, hi: nat)
    ensures var (t, r) := EnsureActive(s, c, h, lo, hi);
      && ((c, h) in s.members ==>
            r == Ok(s.members[(c, h)].ip) && t == s.(members := s.members[(c, h) := Member(r.value, true)]))
      && ((c, h) !in s.members ==>
            && (r == Err(Exhausted) <==> forall n: nat :: Candidate(lo, hi, n) ==> BridgeUsed(s, c, n))
            && (forall a: nat :: r == Ok(a) <==> FirstBridge(s, c, lo, hi, a) && c in s.clusters && h in s.hosts)
            && (r.Ok? || r == Err(Exhausted) || r == Err(Constraint))
            && t == (if r.Ok? then s.(members := s.members[(c, h) := Member(r.value, true)]) else s))
  {
    forall a ensures a in MemberIps(s, c) <==> BridgeUsed(s, c, a) {
      if k :| k in s.members && k.0 == c && s.members[k].ip == a { assert (c, k.1) in s.members; }
    }
    if (c, h) !in s.members {
      var pick := LowestFree(MemberIps(s, c), lo, hi);
      if pick.Some? {
        assert FirstBridge(s, c, lo, hi, pick.value);
        forall a: nat | FirstBridge(s, c, lo, hi, a) ensures a == pick.value {
          assert Candidate(lo, hi, a) && Candidate(lo, hi, pick.value);
        }
      }
    }
  }

  /** While the row is there, through any number of retirements and reactivations, the address stays. */
  lemma {:induction false} BridgeAddressIsConstant(cfg: NetworkConfig, ratio: Ratio, tr: seq<Tables>, steps: seq<Step>,
                                                   i: nat, j: nat, k: (string, string))
    requires Carvable(cfg) && ratio.Valid() && Run(cfg, ratio, tr, steps) && i <= j < |tr|
    requires forall m :: i <= m <= j ==> k in tr[m].members
    ensures tr[i].members[k].ip == tr[j].members[k].ip
    decreases j
  {
    if i < j {
      BridgeAddressIsConstant(cfg, ratio, tr, steps, i, j - 1, k);
      assert Legal(cfg, tr, j - 1, steps[j - 1]) && k in tr[j - 1].members && k in tr[j].members;
      MemberRowsCome(ratio, tr[j - 1], steps[j - 1], k);
    }
  }

  ghost predicate OnBridge(s: Tables, k: (string, string)) {
    k in s.members && k.0 in s.clusters ==>
      s.clusters[k.0].net.bridgeStart <= s.members[k].ip <= s.clusters[k.0].net.bridgeEnd
  }

  lemma NewBridgeAddress(cfg: NetworkConfig, ratio: Ratio, tr: seq<Tables>, steps: seq<Step>, i: nat, k: (string, string))
    requires Carvable(cfg) && cfg.bridgeReserve >= 1 && ratio.Valid() && Run(cfg, ratio, tr, steps) && tr[0] == EMPTY
    requires i < |steps| && k !in tr[i].members && k in tr[i + 1].members
    ensures OnBridge(tr[i + 1], k)
  {
    var s, step := tr[i], steps[i];
    assert Legal(cfg, tr, i, step);
    MemberRowsCome(ratio, s, step, k);
    RowsPersist(cfg, ratio, tr, steps, step.at, i, k.0);
    assert Paired(cfg, s) by { RunKeepsPairs(cfg, ratio, tr, steps, i); }
    FirstFreeIsOnBridge(cfg, s, k.0, tr[i + 1].members[k].ip);
    assert tr[i + 1].clusters == s.clusters;
  }

  lemma KeptBridgeAddress(ratio: Ratio, s: Tables, step: Step, k: (string, string))
    requires ratio.Valid() && Typed(step) && MembersRefer(s) && k in s.members && OnBridge(s, k)
    ensures OnBridge(Apply(ratio, s, step), k)
  {
    var t := Apply(ratio, s, step);
    if k in t.members && k.0 in t.clusters {
      MemberRowsCome(ratio, s, step, k);
      ClusterRowsCome(ratio, s, step, k.0);
    }
  }

  /** With a bridge reserve, every bridge address lies in its cluster's bridge range, in every state of every run. */
  lemma {:induction false} BridgeAddressesAreInRange(cfg: NetworkConfig, ratio: Ratio, tr: seq<Tables>, steps: seq<Step>,
                                                     i: nat, k: (string, string))
    requires Carvable(cfg) && ratio.Valid() && Run(cfg, ratio, tr, steps) && tr[0] == EMPTY && i < |tr|
    requires cfg.bridgeReserve >= 1
    ensures OnBridge(tr[i], k)
    decreases i
  {
    if i > 0 {
      BridgeAddressesAreInRange(cfg, ratio, tr, steps, i - 1, k);
      assert Legal(cfg, tr, i - 1, steps[i - 1]);
      if k in tr[i - 1].members {
        assert MembersRefer(tr[i - 1]) by { RunKeepsSchema(cfg, ratio, tr, steps, i - 1); }
        KeptBridgeAddress(ratio, tr[i - 1], steps[i - 1], k);
      } else if k in tr[i].members {
        NewBridgeAddress(cfg, ratio, tr, steps, i - 1, k);
      }
    }
  }

  lemma FirstFreeIsOnBridge(cfg: NetworkConfig, s: Tables, c: string, ip: nat)
    requires Carvable(cfg) && cfg.bridgeReserve >= 1 && Paired(cfg, s) && c in s.clusters
    requires LowestFree(MemberIps(s, c), s.clusters[c].net.bridgeStart, s.clusters[c].net.bridgeEnd) == Some(ip)
    ensures s.clusters[c].net.bridgeStart <= ip <= s.clusters[c].net.bridgeEnd
  {
    var j: nat :| IsPair(cfg, s.clusters[c].net, j);
    PairLayout(cfg, s.clusters[c].net, j);
  }

  /** Without a reserve the first host to join a cluster gets the first VM address: one is needed. */
  lemma NoReserveTakesVmAddress(cfg: NetworkConfig, s: Tables, c: string, h: string, n: Network, j: nat)
    requires Carvable(cfg) && cfg.bridgeReserve == 0 && IsPair(cfg, n, j)
    requires c in s.clusters && h in s.hosts && forall k :: k in s.members ==> k.0 != c
    ensures EnsureActive(s, c, h, n.bridgeStart, n.bridgeEnd).1 == Ok(n.vmStart)
  {
    PairLayout(cfg, n, j);
    assert MemberIps(s, c) == {};
  }
}
