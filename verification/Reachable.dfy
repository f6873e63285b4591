/**
 Runs that exist, for every valid configuration: one that creates a cluster
 and places a VM in it, one that creates a private cluster with a service
 block, one in which two VM rows come to share an address, one in which the
 address table's key stops the VM allocator, and one that overdraws a host.
 */
module Reachable {
  import opened Arith
  import opened Ipv4
  import opened Naming
  import opened Config
  import opened Tables
  import opened Networks
  import opened ServiceBlocks
  import opened Teardown
  import opened Controller
  import opened Capacity
  import opened Addresses
  import opened VmAddresses

  // --- One more step ---

  lemma LegalInLonger(cfg: NetworkConfig, tr: seq<Tables>, t: Tables, i: nat, step: Step)
    requires Carvable(cfg) && i < |tr| && Legal(cfg, tr, i, step)
    ensures Legal(cfg, tr + [t], i, step)
  {
    var more := tr + [t];
    assert forall j :: 0 <= j <= i ==> more[j] == tr[j];
  }

  lemma EndpointInLonger(tr: seq<Tables>, steps: seq<Step>, more: seq<Tables>, longer: seq<Step>, i: nat, c: string, row: Cluster)
    requires i < |steps| && i < |tr| && tr <= more && steps <= longer
    requires exists j :: 0 <= j < i && GaveEndpoint(tr, steps, j, c, row) && Unreleased(steps, j + 1, i, c)
    ensures exists j :: 0 <= j < i && GaveEndpoint(more, longer, j, c, row) && Unreleased(longer, j + 1, i, c)
  {
    var j :| 0 <= j < i && GaveEndpoint(tr, steps, j, c, row) && Unreleased(steps, j + 1, i, c);
    assert GaveEndpoint(more, longer, j, c, row) && Unreleased(longer, j + 1, i, c);
  }

  lemma BlockInLonger(tr: seq<Tables>, steps: seq<Step>, more: seq<Tables>, longer: seq<Step>, i: nat, c: string, row: Cluster)
    requires i < |steps| && i < |tr| && tr <= more && steps <= longer
    requires exists j :: 0 <= j < i && GaveBlock(tr, steps, j, c, row) && Unreleased(steps, j + 1, i, c)
    ensures exists j :: 0 <= j < i && GaveBlock(more, longer, j, c, row) && Unreleased(longer, j + 1, i, c)
  {
    var j :| 0 <= j < i && GaveBlock(tr, steps, j, c, row) && Unreleased(steps, j + 1, i, c);
    assert GaveBlock(more, longer, j, c, row) && Unreleased(longer, j + 1, i, c);
  }

  lemma ReservedInLonger(tr: seq<Tables>, steps: seq<Step>, more: seq<Tables>, longer: seq<Step>, i: nat)
    requires i < |steps| && i < |tr| && tr <= more && steps <= longer && Reserved(tr, steps, i)
    ensures Reserved(more, longer, i)
  {
    if steps[i].ClusterInsert? {
      var c, row := steps[i].cluster, steps[i].row;
      EndpointInLonger(tr, steps, more, longer, i, c, row);
      if row.block.Some? { BlockInLonger(tr, steps, more, longer, i, c, row); }
    }
  }

  lemma AllottedInLonger(tr: seq<Tables>, steps: seq<Step>, more: seq<Tables>, longer: seq<Step>, i: nat)
    requires i < |steps| && i < |tr| && tr <= more && steps <= longer && Allotted(tr, steps, i)
    ensures Allotted(more, longer, i)
  {
    if steps[i].VmInsert? {
      var j :| 0 <= j < i && Gave(tr, steps, j, steps[i].entry.cluster, steps[i].vm, steps[i].entry.ip);
      assert Gave(more, longer, j, steps[i].entry.cluster, steps[i].vm, steps[i].entry.ip);
    }
  }

  /** What a step needs to continue a proper run. */
  ghost predicate Continues(cfg: NetworkConfig, tr: seq<Tables>, steps: seq<Step>, step: Step)
    requires Carvable(cfg) && |tr| == |steps| + 1
  {
    && Legal(cfg, tr, |steps|, step) && Proper(tr[|steps|], step)
    && Reserved(tr, steps + [step], |steps|) && Allotted(tr, steps + [step], |steps|)
  }

  lemma ExtendRun(cfg: NetworkConfig, ratio: Ratio, tr: seq<Tables>, steps: seq<Step>, step: Step, t: Tables)
    requires Carvable(cfg) && ratio.Valid() && Run(cfg, ratio, tr, steps) && Legal(cfg, tr, |steps|, step)
    requires t == Apply(ratio, tr[|steps|], step)
    ensures Run(cfg, ratio, tr + [t], steps + [step])
  {
    var more, longer := tr + [t], steps + [step];
    forall i | 0 <= i < |longer| ensures Legal(cfg, more, i, longer[i]) && more[i + 1] == Apply(ratio, more[i], longer[i]) {
      if i < |steps| { assert Legal(cfg, tr, i, steps[i]); }
      LegalInLonger(cfg, tr, t, i, longer[i]);
    }
  }

  lemma Extend(cfg: NetworkConfig, ratio: Ratio, tr: seq<Tables>, steps: seq<Step>, step: Step, t: Tables)
    requires Carvable(cfg) && ratio.Valid() && ProperRun(cfg, ratio, tr, steps) && Continues(cfg, tr, steps, step)
    requires t == Apply(ratio, tr[|steps|], step)
    ensures ProperRun(cfg, ratio, tr + [t], steps + [step])
  {
    var more, longer := tr + [t], steps + [step];
    ExtendRun(cfg, ratio, tr, steps, step, t);
    forall i | 0 <= i < |longer| ensures Proper(more[i], longer[i]) {
      if i < |steps| { assert Proper(tr[i], steps[i]); }
    }
    forall i | 0 <= i < |longer| ensures Reserved(more, longer, i) && Allotted(more, longer, i) {
      var had := if i < |steps| then steps else longer;
      assert Reserved(tr, had, i) && Allotted(tr, had, i);
      ReservedInLonger(tr, had, more, longer, i);
      AllottedInLonger(tr, had, more, longer, i);
    }
  }

  /**
   A proper run that ends in `s`, in which no host reports twice, and which has
   seen, or reserved a private endpoint for, the clusters in `known` only.
   */
  ghost predicate Ends(cfg: NetworkConfig, ratio: Ratio, tr: seq<Tables>, steps: seq<Step>, s: Tables, known: set<string>)
    requires Carvable(cfg) && ratio.Valid()
  {
    && ProperRun(cfg, ratio, tr, steps) && tr[|steps|] == s
    && (forall j :: 0 <= j < |tr| ==> tr[j].clusters.Keys <= known)
    && (forall j :: 0 <= j < |steps| && steps[j].EndpointReserve? ==> steps[j].cluster in known)
    && (forall j :: 0 <= j < |steps| && steps[j].HostPut? ==> steps[j].host !in tr[j].hosts)
  }

  lemma OneStep(cfg: NetworkConfig, ratio: Ratio, tr: seq<Tables>, steps: seq<Step>, s: Tables, known: set<string>,
              step: Step, t: Tables, more: set<string>)
    requires Carvable(cfg) && ratio.Valid() && Ends(cfg, ratio, tr, steps, s, known) && Continues(cfg, tr, steps, step)
    requires t == Apply(ratio, s, step) && known <= more && t.clusters.Keys <= more
    requires (step.EndpointReserve? ==> step.cluster in more) && (step.HostPut? ==> step.host !in s.hosts)
    ensures Ends(cfg, ratio, tr + [t], steps + [step], t, more)
  {
    Extend(cfg, ratio, tr, steps, step, t);
  }

  // --- The first cluster of a configuration ---

  /** The first network of the configuration. */
  function FirstNetwork(cfg: NetworkConfig): Network
    requires Carvable(cfg)
  {
    SubnetBlock(cfg.supernet, cfg.clusterPrefix, 0);
    Carve(cfg.vniStart, Subnet(cfg.supernet, cfg.clusterPrefix, 0), cfg.bridgeReserve)
  }

  lemma FirstIsOffered(cfg: NetworkConfig, s: Tables)
    requires Carvable(cfg) && cfg.vniStart <= cfg.vniEnd && s.clusters == map[]
    ensures Offered(cfg, s, FirstNetwork(cfg))
  {
    SubnetBlock(cfg.supernet, cfg.clusterPrefix, 0);
    assert SubnetFree(cfg, s, 0);
    assert VniFound(cfg, s, cfg.vniStart);
    assert OfferedAt(cfg, s, FirstNetwork(cfg), 0);
  }

  /** A public cluster on the first network, with the first address of pool `p` as its endpoint. */
  function FirstRow(cfg: NetworkConfig, p: Pool): Cluster
    requires Carvable(cfg) && p.cidr.Valid()
  {
    Cluster("first", FirstNetwork(cfg), true, PoolLow(p.cidr), p.name, None)
  }

  lemma FirstFacts(cfg: NetworkConfig, p: Pool)
    requires Valid(cfg) && p in cfg.pools
    ensures p.cidr.Valid() && p.cidr.len < 31 && PoolLow(p.cidr) <= PoolHigh(p.cidr)
    ensures FirstNetwork(cfg).vmStart <= FirstNetwork(cfg).vmEnd && PoolLow(p.cidr) != FirstNetwork(cfg).vmStart
    ensures cfg.vniStart <= cfg.vniEnd && FirstNetwork(cfg).vni == cfg.vniStart
  {
    ValidPoolsAreApart(cfg);
    PoolRange(p);
    SubnetBlock(cfg.supernet, cfg.clusterPrefix, 0);
    assert IsPair(cfg, FirstNetwork(cfg), 0);
    PairLayout(cfg, FirstNetwork(cfg), 0);
    assert InPool(p, PoolLow(p.cidr));
    assert !cfg.supernet.Contains(PoolLow(p.cidr)) && cfg.supernet.Contains(FirstNetwork(cfg).vmStart);
  }

  lemma FirstOfRange(s: Tables, scope: Scope, lo: nat, hi: nat, o: Owner)
    requires lo !in s.ips && HostAddresses(s) == {}
    ensures AllocateFromRange(s, scope, lo, hi, o) == (s.(ips := s.ips[lo := Holding(scope, o)]), Ok(lo))
  {
  }

  // --- Stages ---

  const HOST := Host("host", 0, 0, 0, 0, true, None, [], 0, map[])

  function WithHost(h: string): Tables { EMPTY.(hosts := map[h := HOST]) }

  lemma RegisterHost(cfg: NetworkConfig, ratio: Ratio, h: string) returns (tr: seq<Tables>, steps: seq<Step>)
    requires Carvable(cfg) && ratio.Valid()
    ensures |steps| == 1 && Ends(cfg, ratio, tr, steps, WithHost(h), {})
  {
    OneStep(cfg, ratio, [EMPTY], [], EMPTY, {}, HostPut(h, HOST), WithHost(h), {});
    tr, steps := [EMPTY] + [WithHost(h)], [] + [HostPut(h, HOST)];
  }

  function WithVip(s: Tables, p: Pool, c: string): Tables
    requires p.cidr.Valid()
  {
    s.(ips := s.ips[PoolLow(p.cidr) := Holding(PoolScope(p.name), OfCluster(c))])
  }

  function WithCluster(cfg: NetworkConfig, s: Tables, p: Pool, c: string): Tables
    requires Carvable(cfg) && p.cidr.Valid()
  {
    WithVip(s, p, c).(clusters := map[c := FirstRow(cfg, p)])
  }

  /** Take a public endpoint, then insert the cluster. */
  lemma CreateCluster(cfg: NetworkConfig, ratio: Ratio, tr0: seq<Tables>, steps0: seq<Step>, s: Tables, known: set<string>,
                      p: Pool, c: string) returns (tr: seq<Tables>, steps: seq<Step>)
    requires Valid(cfg) && ratio.Valid() && p in cfg.pools && p.cidr.Valid() && Ends(cfg, ratio, tr0, steps0, s, known)
    requires s.clusters == map[] && c !in known && HostAddresses(s) == {} && PoolLow(p.cidr) !in s.ips
    ensures |steps| == |steps0| + 2 && Ends(cfg, ratio, tr, steps, WithCluster(cfg, s, p, c), known + {c})
    ensures tr0 <= tr && steps0 <= steps
  {
    FirstFacts(cfg, p);
    var t := WithVip(s, p, c);
    FirstOfRange(s, PoolScope(p.name), PoolLow(p.cidr), PoolHigh(p.cidr), OfCluster(c));
    OneStep(cfg, ratio, tr0, steps0, s, known, VipAllocate(p, c), t, known);
    tr, steps := tr0 + [t], steps0 + [VipAllocate(p, c)];
    assert Ready(tr, steps, c, FirstRow(cfg, p), |steps0|, 0) by {
      assert GaveEndpoint(tr, steps, |steps0|, c, FirstRow(cfg, p));
    }
    tr, steps := InsertFirst(cfg, ratio, tr, steps, t, known, c, FirstRow(cfg, p), |steps0|, 0);
  }

  /** Steps `j` and `k` gave cluster `c` its endpoint and its block, and nothing was released since. */
  ghost predicate Ready(tr: seq<Tables>, steps: seq<Step>, c: string, row: Cluster, j: nat, k: nat)
    requires |steps| < |tr|
  {
    && j < |steps| && GaveEndpoint(tr, steps, j, c, row) && Unreleased(steps, j + 1, |steps|, c)
    && (row.block.Some? ==> k < |steps| && GaveBlock(tr, steps, k, c, row) && Unreleased(steps, k + 1, |steps|, c))
    && forall m :: 0 <= m < |steps| && steps[m].EndpointReserve? && steps[m].cluster == c ==> steps[m].net == row.net
  }

  lemma ReadyIsReserved(tr: seq<Tables>, steps: seq<Step>, c: string, row: Cluster, at: nat, j: nat, k: nat)
    requires |tr| == |steps| + 1 && Ready(tr, steps, c, row, j, k)
    ensures Reserved(tr, steps + [ClusterInsert(c, row, at)], |steps|)
  {
    var n, longer := |steps|, steps + [ClusterInsert(c, row, at)];
    assert GaveEndpoint(tr, longer, j, c, row) && Unreleased(longer, j + 1, n, c);
    if row.block.Some? { assert GaveBlock(tr, longer, k, c, row) && Unreleased(longer, k + 1, n, c); }
  }

  lemma InsertContinues(cfg: NetworkConfig, tr: seq<Tables>, steps: seq<Step>, c: string, row: Cluster, j: nat, k: nat)
    requires Carvable(cfg) && cfg.vniStart <= cfg.vniEnd && |tr| == |steps| + 1 && tr[|steps|].clusters == map[]
    requires row.net == FirstNetwork(cfg) && NeverSeen(tr, |steps|, c) && Ready(tr, steps, c, row, j, k)
    ensures Continues(cfg, tr, steps, ClusterInsert(c, row, |steps|))
  {
    FirstIsOffered(cfg, tr[|steps|]);
    ReadyIsReserved(tr, steps, c, row, |steps|, j, k);
  }

  /** Insert a cluster on the first network. */
  lemma InsertFirst(cfg: NetworkConfig, ratio: Ratio, tr0: seq<Tables>, steps0: seq<Step>, s: Tables, known: set<string>,
                    c: string, row: Cluster, j: nat, k: nat) returns (tr: seq<Tables>, steps: seq<Step>)
    requires Valid(cfg) && ratio.Valid() && Ends(cfg, ratio, tr0, steps0, s, known) && s.clusters == map[]
    requires cfg.vniStart <= cfg.vniEnd && row.net == FirstNetwork(cfg) && NeverSeen(tr0, |steps0|, c)
    requires Ready(tr0, steps0, c, row, j, k)
    ensures |steps| == |steps0| + 1 && Ends(cfg, ratio, tr, steps, s.(clusters := map[c := row]), known + {c})
    ensures tr0 <= tr && steps0 <= steps
  {
    var insert, t := ClusterInsert(c, row, |steps0|), s.(clusters := map[c := row]);
    InsertContinues(cfg, tr0, steps0, c, row, j, k);
    assert t == Apply(ratio, s, insert);
    OneStep(cfg, ratio, tr0, steps0, s, known, insert, t, known + {c});
    tr, steps := tr0 + [t], steps0 + [insert];
  }

  function WithClaim(cfg: NetworkConfig, s: Tables, c: string, v: string): Tables
    requires Carvable(cfg)
  {
    s.(ips := s.ips[FirstNetwork(cfg).vmStart := Claim(c, v)])
  }

  /** Allocate a VM address for a cluster read in state `at`. */
  lemma GiveAddress(cfg: NetworkConfig, ratio: Ratio, tr0: seq<Tables>, steps0: seq<Step>, s: Tables, known: set<string>,
                    at: nat, c: string, v: string) returns (tr: seq<Tables>, steps: seq<Step>)
    requires Carvable(cfg) && ratio.Valid() && Ends(cfg, ratio, tr0, steps0, s, known)
    requires at <= |steps0| && c in tr0[at].clusters && tr0[at].clusters[c].net == FirstNetwork(cfg)
    requires HostAddresses(s) == {} && FirstNetwork(cfg).vmStart !in s.ips && s.clusters.Keys <= known
    ensures |steps| == |steps0| + 1 && Ends(cfg, ratio, tr, steps, WithClaim(cfg, s, c, v), known)
    ensures tr0 <= tr && steps0 <= steps && Gave(tr, steps, |steps0|, c, v, FirstNetwork(cfg).vmStart)
  {
    var n, t := FirstNetwork(cfg), WithClaim(cfg, s, c, v);
    var step := VmIpAllocate(c, n, v, at);
    FirstOfRange(s, ClusterScope(c), n.vmStart, n.vmEnd, OfVm(v));
    assert Legal(cfg, tr0, |steps0|, step) && Proper(s, step);
    OneStep(cfg, ratio, tr0, steps0, s, known, step, t, known);
    tr, steps := tr0 + [t], steps0 + [step];
    assert tr[|steps0|] == s && steps[|steps0|] == step;
  }

  function FirstVm(cfg: NetworkConfig, c: string, h: string, v: string): Vm
    requires Carvable(cfg)
  {
    Vm(v, c, h, FirstNetwork(cfg).vmStart, Creating, 0, 0, 0, 0)
  }

  /** VMs that use nothing and are named by their identifiers. */
  ghost predicate Modest(s: Tables) {
    forall v :: v in s.vms ==> s.vms[v].name == v && forall r :: Amount(s.vms[v], r) == 0
  }

  lemma {:induction false} ModestUse(vms: map<string, Vm>, h: string, r: Resource)
    requires forall v :: v in vms ==> Amount(vms[v], r) == 0
    ensures Used(vms, h, r) == 0
    decreases |vms|
  {
    if vms != map[] {
      var v :| v in vms;
      UsedRemove(vms, v, h, r);
      ModestUse(vms - {v}, h, r);
    }
  }

  /** A VM for which the gate asks for nothing commits. */
  lemma VmCommits(s: Tables, ratio: Ratio, v: string, vm: Vm, rows: seq<DiskRow>)
    requires ratio.Valid() && Modest(s) && v !in s.vms && vm.name == v && vm.cluster in s.clusters
    requires vm.host in s.hosts && s.hosts[vm.host].healthy && forall r :: Need(vm, r) <= 0
    requires s.disks == map[] && |rows| <= 1
    ensures var (t, r) := InsertVm(s, ratio, v, vm, [], rows); r.Ok? && t == s.(vms := s.vms[v := vm], disks := t.disks)
    ensures rows == [] ==> InsertVm(s, ratio, v, vm, [], rows).0.disks == s.disks
  {
    forall r ensures HasRoom(s, ratio, vm, r) {
      ModestUse(s.vms, vm.host, r);
    }
    assert HasRoom(s, ratio, vm, Cpu) && HasRoom(s, ratio, vm, Memory);
    assert HasRoom(s, ratio, vm, Rootfs) && HasRoom(s, ratio, vm, Data);
    CommitIff(s, ratio, v, vm, [], rows);
    assert s.gpus + Claims(v, vm.host, []) == s.gpus;
  }

  function WithVm(cfg: NetworkConfig, s: Tables, c: string, h: string, v: string): Tables
    requires Carvable(cfg)
  {
    s.(vms := s.vms[v := FirstVm(cfg, c, h, v)])
  }

  /** Insert a VM with the address given to it in step `j`. */
  lemma InsertTheVm(cfg: NetworkConfig, ratio: Ratio, tr0: seq<Tables>, steps0: seq<Step>, s: Tables, known: set<string>,
                    j: nat, v: string, vm: Vm, rows: seq<DiskRow>) returns (tr: seq<Tables>, steps: seq<Step>)
    requires Carvable(cfg) && ratio.Valid() && Ends(cfg, ratio, tr0, steps0, s, known)
    requires j < |steps0| && Gave(tr0, steps0, j, vm.cluster, v, vm.ip)
    requires InsertVm(s, ratio, v, vm, [], rows).1.Ok? && s.clusters.Keys <= known
    ensures tr == tr0 + [InsertVm(s, ratio, v, vm, [], rows).0] && steps == steps0 + [VmInsert(v, vm, [], rows)]
    ensures Ends(cfg, ratio, tr, steps, InsertVm(s, ratio, v, vm, [], rows).0, known)
  {
    var step, t := VmInsert(v, vm, [], rows), InsertVm(s, ratio, v, vm, [], rows).0;
    assert Legal(cfg, tr0, |steps0|, step) && Proper(s, step);
    assert Allotted(tr0, steps0 + [step], |steps0|) by { assert Gave(tr0, steps0 + [step], j, vm.cluster, v, vm.ip); }
    OneStep(cfg, ratio, tr0, steps0, s, known, step, t, known);
    tr, steps := tr0 + [t], steps0 + [step];
  }

  lemma PlaceVm(cfg: NetworkConfig, ratio: Ratio, tr0: seq<Tables>, steps0: seq<Step>, s: Tables, known: set<string>,
                j: nat, c: string, h: string, v: string) returns (tr: seq<Tables>, steps: seq<Step>)
    requires Carvable(cfg) && ratio.Valid() && Ends(cfg, ratio, tr0, steps0, s, known)
    requires j < |steps0| && Gave(tr0, steps0, j, c, v, FirstNetwork(cfg).vmStart)
    requires c in s.clusters && h in s.hosts && s.hosts[h].healthy && Modest(s) && v !in s.vms && s.clusters.Keys <= known
    requires s.disks == map[]
    ensures |steps| == |steps0| + 1 && Ends(cfg, ratio, tr, steps, WithVm(cfg, s, c, h, v), known)
    ensures tr0 <= tr && steps0 <= steps
  {
    VmCommits(s, ratio, v, FirstVm(cfg, c, h, v), []);
    tr, steps := InsertTheVm(cfg, ratio, tr0, steps0, s, known, j, v, FirstVm(cfg, c, h, v), []);
  }

  // --- The runs ---

  /** The tables with one host, one cluster and one VM. */
  function Placed(cfg: NetworkConfig, p: Pool, c: string, h: string, v: string): Tables
    requires Carvable(cfg) && p.cidr.Valid()
  {
    WithVm(cfg, WithClaim(cfg, WithCluster(cfg, WithHost(h), p, c), c, v), c, h, v)
  }

  lemma FirstCluster(cfg: NetworkConfig, ratio: Ratio, p: Pool, c: string, h: string)
    returns (tr: seq<Tables>, steps: seq<Step>)
    requires Valid(cfg) && ratio.Valid() && p in cfg.pools && p.cidr.Valid()
    ensures |steps| == 3 && Ends(cfg, ratio, tr, steps, WithCluster(cfg, WithHost(h), p, c), {c})
  {
    tr, steps := RegisterHost(cfg, ratio, h);
    tr, steps := CreateCluster(cfg, ratio, tr, steps, WithHost(h), {}, p, c);
  }

  lemma AddressIsGiven(cfg: NetworkConfig, ratio: Ratio, p: Pool, c: string, h: string, v: string)
    returns (tr: seq<Tables>, steps: seq<Step>)
    requires Valid(cfg) && ratio.Valid() && p in cfg.pools && p.cidr.Valid()
    ensures |steps| == 4 && Ends(cfg, ratio, tr, steps, WithClaim(cfg, WithCluster(cfg, WithHost(h), p, c), c, v), {c})
    ensures Gave(tr, steps, 3, c, v, FirstNetwork(cfg).vmStart)
  {
    FirstFacts(cfg, p);
    tr, steps := FirstCluster(cfg, ratio, p, c, h);
    tr, steps := GiveAddress(cfg, ratio, tr, steps, WithCluster(cfg, WithHost(h), p, c), {c}, 3, c, v);
  }

  /** For every valid configuration and any names: a run that creates a cluster and places a VM in it. */
  lemma ClusterAndVmAreReachable(cfg: NetworkConfig, ratio: Ratio, p: Pool, c: string, h: string, v: string)
    returns (tr: seq<Tables>, steps: seq<Step>)
    requires Valid(cfg) && ratio.Valid() && p in cfg.pools && p.cidr.Valid()
    ensures |steps| == 5 && Ends(cfg, ratio, tr, steps, Placed(cfg, p, c, h, v), {c})
    ensures c in tr[5].clusters && v in tr[5].vms && Keeps(tr[5], v) && tr[5].vms[v].ip !in HostAddresses(tr[5])
  {
    tr, steps := AddressIsGiven(cfg, ratio, p, c, h, v);
    var s := WithClaim(cfg, WithCluster(cfg, WithHost(h), p, c), c, v);
    tr, steps := PlaceVm(cfg, ratio, tr, steps, s, {c}, 3, c, h, v);
  }

  /** The VM marked pending and its address taken back. */
  function Freed(cfg: NetworkConfig, p: Pool, c: string, h: string, v: string): Tables
    requires Carvable(cfg) && p.cidr.Valid()
  {
    var s := WithCluster(cfg, WithHost(h), p, c);
    s.(vms := map[v := FirstVm(cfg, c, h, v).(state := PendingTeardown)])
  }

  /** A step that names the VM while its row stays: a release, or an acknowledgement from another host. */
  predicate FreesOnly(step: Step, v: string, h: string) {
    step == IpsRelease(OfVm(v)) || (step.TombstoneAck? && step.host != h && step.vnis == [] && step.vms == [v])
  }

  lemma RowOutlivesClaim(cfg: NetworkConfig, ratio: Ratio, p: Pool, c: string, h: string, v: string, free: Step)
    requires Valid(cfg) && ratio.Valid() && p in cfg.pools && p.cidr.Valid() && FreesOnly(free, v, h)
    ensures var s := SetVmState(Placed(cfg, p, c, h, v), v, PendingTeardown);
      Apply(ratio, s, free) == Freed(cfg, p, c, h, v)
  {
    var s := SetVmState(Placed(cfg, p, c, h, v), v, PendingTeardown);
    assert ReleaseIps(s, OfVm(v)) == Freed(cfg, p, c, h, v) by { ClaimComesOff(cfg, p, c, h, v); }
    if free.TombstoneAck? {
      SingleAcks(s, free.host, 0, v);
      assert s.vms[v].host == h;
    }
  }

  lemma ClaimComesOff(cfg: NetworkConfig, p: Pool, c: string, h: string, v: string)
    requires Valid(cfg) && p in cfg.pools && p.cidr.Valid()
    ensures var s := SetVmState(Placed(cfg, p, c, h, v), v, PendingTeardown); ReleaseIps(s, OfVm(v)) == Freed(cfg, p, c, h, v)
  {
    FirstFacts(cfg, p);
    var s := SetVmState(Placed(cfg, p, c, h, v), v, PendingTeardown);
    assert s.vms == Freed(cfg, p, c, h, v).vms;
    assert WithoutOwner(s.ips, OfVm(v)) == WithCluster(cfg, WithHost(h), p, c).ips;
  }

  lemma FreedIsReachable(cfg: NetworkConfig, ratio: Ratio, p: Pool, c: string, h: string, v: string, free: Step)
    returns (tr: seq<Tables>, steps: seq<Step>)
    requires Valid(cfg) && ratio.Valid() && p in cfg.pools && p.cidr.Valid() && FreesOnly(free, v, h)
    ensures Ends(cfg, ratio, tr, steps, Freed(cfg, p, c, h, v), {c})
  {
    tr, steps := ClusterAndVmAreReachable(cfg, ratio, p, c, h, v);
    var mark, s := VmReport(v, PendingTeardown), Placed(cfg, p, c, h, v);
    var t := SetVmState(s, v, PendingTeardown);
    OneStep(cfg, ratio, tr, steps, s, {c}, mark, t, {c});
    tr, steps := tr + [t], steps + [mark];
    RowOutlivesClaim(cfg, ratio, p, c, h, v, free);
    OneStep(cfg, ratio, tr, steps, t, {c}, free, Freed(cfg, p, c, h, v), {c});
    tr, steps := tr + [Freed(cfg, p, c, h, v)], steps + [free];
  }

  lemma ModestFreed(cfg: NetworkConfig, p: Pool, c: string, h: string, v: string)
    requires Valid(cfg) && p in cfg.pools && p.cidr.Valid()
    ensures var s := Freed(cfg, p, c, h, v);
      && Modest(s) && HostAddresses(s) == {} && FirstNetwork(cfg).vmStart !in s.ips
      && s.clusters == map[c := FirstRow(cfg, p)] && s.vms.Keys == {v} && s.hosts == map[h := HOST]
  {
    FirstFacts(cfg, p);
  }

  /**
   A run in which two VM rows share an address: a VM is marked pending and its
   address taken back before its row goes, as when a failed VM is cleaned up,
   and the next VM gets the same address.
   */
  lemma RowsCanShare(cfg: NetworkConfig, ratio: Ratio, p: Pool, c: string, h: string, v: string, w: string, free: Step)
    returns (tr: seq<Tables>, steps: seq<Step>)
    requires Valid(cfg) && ratio.Valid() && p in cfg.pools && p.cidr.Valid() && v != w && FreesOnly(free, v, h)
    ensures ProperRun(cfg, ratio, tr, steps)
    ensures var s := tr[|steps|]; v in s.vms && w in s.vms && s.vms[v].ip == s.vms[w].ip && Keeps(s, w) && !Keeps(s, v)
  {
    var u := Freed(cfg, p, c, h, v);
    ModestFreed(cfg, p, c, h, v);
    tr, steps := FreedIsReachable(cfg, ratio, p, c, h, v, free);
    tr, steps := GiveAddress(cfg, ratio, tr, steps, u, {c}, |steps|, c, w);
    tr, steps := PlaceVm(cfg, ratio, tr, steps, WithClaim(cfg, u, c, w), {c}, |steps| - 1, c, h, w);
  }

  lemma DrainedAtOnce(cfg: NetworkConfig, p: Pool, c: string, h: string)
    requires Carvable(cfg) && p.cidr.Valid()
    ensures Ack(WithCluster(cfg, WithHost(h), p, c), h, [FirstNetwork(cfg).vni], []) == WithHost(h)
  {
    var s, vni := WithCluster(cfg, WithHost(h), p, c), FirstNetwork(cfg).vni;
    SingleAcks(s, h, vni, "");
    assert HasVni(s, c, vni);
    AckVniIs(s, h, vni, c);
    assert WithoutOwner(s.ips, OfCluster(c)) == map[] && s.clusters - {c} == map[];
  }

  lemma Acknowledge(cfg: NetworkConfig, ratio: Ratio, tr0: seq<Tables>, steps0: seq<Step>, s: Tables, known: set<string>,
                    h: string, vni: nat, t: Tables) returns (tr: seq<Tables>, steps: seq<Step>)
    requires Carvable(cfg) && ratio.Valid() && Ends(cfg, ratio, tr0, steps0, s, known)
    requires t == Ack(s, h, [vni], []) && t.clusters.Keys <= known
    ensures tr == tr0 + [t] && steps == steps0 + [TombstoneAck(h, [vni], [])] && Ends(cfg, ratio, tr, steps, t, known)
  {
    var ack := TombstoneAck(h, [vni], []);
    assert Continues(cfg, tr0, steps0, ack);
    OneStep(cfg, ratio, tr0, steps0, s, known, ack, t, known);
    tr, steps := tr0 + [t], steps0 + [ack];
  }

  /** A cluster is created and drained. */
  lemma CreateAndDrain(cfg: NetworkConfig, ratio: Ratio, p: Pool, c: string, h: string)
    returns (tr: seq<Tables>, steps: seq<Step>)
    requires Valid(cfg) && ratio.Valid() && p in cfg.pools && p.cidr.Valid()
    ensures |steps| == 4 && Ends(cfg, ratio, tr, steps, WithHost(h), {c}) && tr[3] == WithCluster(cfg, WithHost(h), p, c)
  {
    tr, steps := FirstCluster(cfg, ratio, p, c, h);
    DrainedAtOnce(cfg, p, c, h);
    var s, vni := WithCluster(cfg, WithHost(h), p, c), FirstNetwork(cfg).vni;
    tr, steps := Acknowledge(cfg, ratio, tr, steps, s, {c}, h, vni, WithHost(h));
  }

  /** And then an address is allocated on the stale read. */
  lemma StaleAddress(cfg: NetworkConfig, ratio: Ratio, p: Pool, c: string, h: string, v: string)
    returns (tr: seq<Tables>, steps: seq<Step>)
    requires Valid(cfg) && ratio.Valid() && p in cfg.pools && p.cidr.Valid()
    ensures Ends(cfg, ratio, tr, steps, WithClaim(cfg, WithHost(h), c, v), {c})
  {
    tr, steps := CreateAndDrain(cfg, ratio, p, c, h);
    tr, steps := GiveAddress(cfg, ratio, tr, steps, WithHost(h), {c}, 3, c, v);
  }

  /** The allocator's first candidate is free in the new cluster's scope and held in the old one's. */
  lemma StaleClaimStops(cfg: NetworkConfig, p: Pool, c: string, d: string, h: string, v: string, w: string)
    requires Valid(cfg) && p in cfg.pools && p.cidr.Valid() && c != d
    ensures var s, n := WithCluster(cfg, WithClaim(cfg, WithHost(h), c, v), p, d), FirstNetwork(cfg);
      && HeldIn(s, ClusterScope(d)) == {} && HeldByDead(s, n.vmStart)
      && AllocateFromRange(s, ClusterScope(d), n.vmStart, n.vmEnd, OfVm(w)).1 == Err(Constraint)
  {
    FirstFacts(cfg, p);
    var s, n := WithCluster(cfg, WithClaim(cfg, WithHost(h), c, v), p, d), FirstNetwork(cfg);
    assert HostAddresses(s) == {};
    assert Taken(s, ClusterScope(d)) == {};
  }

  /**
   A run in which the key of the address table stops the VM allocator although
   the cluster holds no address in its scope: the address was allocated for a
   cluster that had been deleted since it was read, and the next cluster got
   its network.
   */
  lemma KeyCanStopAllocator(cfg: NetworkConfig, ratio: Ratio, p: Pool, c: string, d: string, h: string, v: string, w: string)
    returns (tr: seq<Tables>, steps: seq<Step>)
    requires Valid(cfg) && ratio.Valid() && p in cfg.pools && p.cidr.Valid() && c != d
    ensures ProperRun(cfg, ratio, tr, steps)
    ensures var s, n := tr[|steps|], FirstNetwork(cfg);
      && d in s.clusters && s.clusters[d].net == n && HeldIn(s, ClusterScope(d)) == {} && HeldByDead(s, n.vmStart)
      && AllocateFromRange(s, ClusterScope(d), n.vmStart, n.vmEnd, OfVm(w)).1 == Err(Constraint)
  {
    FirstFacts(cfg, p);
    tr, steps := StaleAddress(cfg, ratio, p, c, h, v);
    tr, steps := CreateCluster(cfg, ratio, tr, steps, WithClaim(cfg, WithHost(h), c, v), {c}, p, d);
    StaleClaimStops(cfg, p, c, d, h, v, w);
  }

  // --- A private cluster with a service block ---

  /** A private cluster on the first network, with the first address of pool `p` as its service block. */
  function PrivateRow(cfg: NetworkConfig, p: Pool): Cluster
    requires Carvable(cfg) && p.cidr.Valid()
  {
    Cluster("private", FirstNetwork(cfg), false, FirstNetwork(cfg).vmEnd, p.name, Some(Cidr(PoolLow(p.cidr), 32)))
  }

  lemma FirstBlock(s: Tables, scope: Scope, lo: nat, hi: nat, o: Owner)
    requires lo !in s.ips && HostAddresses(s) == {} && lo <= hi < ADDRESS_END
    ensures AllocateBlock(s, scope, lo, hi, o, 1) == (s.(ips := s.ips[lo := Holding(scope, o)]), Ok(Cidr(lo, 32)))
  {
    var h := Holding(scope, o);
    assert Pow2(0) == 1 && IsPow2(1) && BlockLen(1) == 32;
    BlockIsLowest(Taken(s, scope), lo, hi, 1);
    AlignedTimes(lo, 1);
    assert Suits(Taken(s, scope), lo, hi, 1, lo);
    assert HoldAll(s.ips, lo, 1, h) == s.ips[lo := h];
  }

  function WithEndpoint(cfg: NetworkConfig, s: Tables, c: string): Tables
    requires Carvable(cfg)
  {
    s.(ips := s.ips[FirstNetwork(cfg).vmEnd := Holding(ClusterScope(c), OfCluster(c))])
  }

  lemma FirstLayout(cfg: NetworkConfig)
    requires Valid(cfg) && cfg.vniStart <= cfg.vniEnd
    ensures var n := FirstNetwork(cfg); n.cidr.Valid() && n.cidr.len <= 30 && n.vmEnd == PrivateEndpoint(n)
  {
    SubnetBlock(cfg.supernet, cfg.clusterPrefix, 0);
    PairLayout(cfg, FirstNetwork(cfg), 0);
  }

  lemma ReserveContinues(cfg: NetworkConfig, tr: seq<Tables>, steps: seq<Step>, c: string)
    requires Valid(cfg) && cfg.vniStart <= cfg.vniEnd && |tr| == |steps| + 1 && tr[|steps|].clusters == map[]
    requires NeverSeen(tr, |steps|, c)
    ensures Continues(cfg, tr, steps, EndpointReserve(c, FirstNetwork(cfg), |steps|))
  {
    FirstLayout(cfg);
    FirstIsOffered(cfg, tr[|steps|]);
  }

  /** Reserve the private endpoint of the first network. */
  lemma ReserveEndpoint(cfg: NetworkConfig, ratio: Ratio, tr0: seq<Tables>, steps0: seq<Step>, s: Tables, known: set<string>,
                        c: string) returns (tr: seq<Tables>, steps: seq<Step>)
    requires Valid(cfg) && ratio.Valid() && Ends(cfg, ratio, tr0, steps0, s, known) && s.clusters == map[]
    requires cfg.vniStart <= cfg.vniEnd && c !in known && FirstNetwork(cfg).vmEnd !in s.ips
    ensures tr == tr0 + [WithEndpoint(cfg, s, c)] && steps == steps0 + [EndpointReserve(c, FirstNetwork(cfg), |steps0|)]
    ensures Ends(cfg, ratio, tr, steps, WithEndpoint(cfg, s, c), known + {c})
  {
    var reserve, t := EndpointReserve(c, FirstNetwork(cfg), |steps0|), WithEndpoint(cfg, s, c);
    assert NeverSeen(tr0, |steps0|, c);
    FirstLayout(cfg);
    ReserveContinues(cfg, tr0, steps0, c);
    assert t == Apply(ratio, s, reserve);
    OneStep(cfg, ratio, tr0, steps0, s, known, reserve, t, known + {c});
    tr, steps := tr0 + [t], steps0 + [reserve];
  }

  /** Take a service block of one address. */
  lemma TakeBlock(cfg: NetworkConfig, ratio: Ratio, tr0: seq<Tables>, steps0: seq<Step>, s: Tables, known: set<string>,
                  p: Pool, c: string) returns (tr: seq<Tables>, steps: seq<Step>)
    requires Valid(cfg) && ratio.Valid() && p in cfg.pools && p.cidr.Valid() && Ends(cfg, ratio, tr0, steps0, s, known)
    requires s.clusters == map[] && HostAddresses(s) == {} && PoolLow(p.cidr) !in s.ips
    ensures tr == tr0 + [WithVip(s, p, c)] && steps == steps0 + [BlockAllocate(p, c, 1)]
    ensures Ends(cfg, ratio, tr, steps, WithVip(s, p, c), known) && GaveBlock(tr, steps, |steps0|, c, PrivateRow(cfg, p))
  {
    FirstFacts(cfg, p);
    PoolRange(p);
    var step, t := BlockAllocate(p, c, 1), WithVip(s, p, c);
    FirstBlock(s, PoolScope(p.name), PoolLow(p.cidr), PoolHigh(p.cidr), OfCluster(c));
    assert Continues(cfg, tr0, steps0, step);
    OneStep(cfg, ratio, tr0, steps0, s, known, step, t, known);
    tr, steps := tr0 + [t], steps0 + [step];
  }

  lemma PrivateIsReady(cfg: NetworkConfig, tr: seq<Tables>, steps: seq<Step>, p: Pool, c: string)
    requires Carvable(cfg) && p.cidr.Valid() && |tr| == 3 && tr[0] == EMPTY
    requires steps == [EndpointReserve(c, FirstNetwork(cfg), 0), BlockAllocate(p, c, 1)]
    requires var n := FirstNetwork(cfg); n.cidr.Valid() && n.cidr.len <= 30 && n.vmEnd == PrivateEndpoint(n)
    requires GaveBlock(tr, steps, 1, c, PrivateRow(cfg, p))
    ensures Ready(tr, steps, c, PrivateRow(cfg, p), 0, 1)
  {
    assert GaveEndpoint(tr, steps, 0, c, PrivateRow(cfg, p));
  }

  /** For every valid configuration: a run that creates a private cluster with a service block. */
  lemma PrivateClusterIsReachable(cfg: NetworkConfig, ratio: Ratio, p: Pool, c: string)
    returns (tr: seq<Tables>, steps: seq<Step>)
    requires Valid(cfg) && ratio.Valid() && p in cfg.pools && p.cidr.Valid()
    ensures |steps| == 3
    ensures Ends(cfg, ratio, tr, steps, WithVip(WithEndpoint(cfg, EMPTY, c), p, c).(clusters := map[c := PrivateRow(cfg, p)]), {c})
  {
    FirstFacts(cfg, p);
    var s, row := WithEndpoint(cfg, EMPTY, c), PrivateRow(cfg, p);
    tr, steps := ReserveEndpoint(cfg, ratio, [EMPTY], [], EMPTY, {}, c);
    assert PoolLow(p.cidr) !in s.ips by { EndpointNotInPool(cfg, p); }
    tr, steps := TakeBlock(cfg, ratio, tr, steps, s, {} + {c}, p, c);
    FirstLayout(cfg);
    PrivateIsReady(cfg, tr, steps, p, c);
    tr, steps := InsertFirst(cfg, ratio, tr, steps, WithVip(s, p, c), {} + {c}, c, row, 0, 1);
    assert {} + {c} + {c} == {c};
  }

  lemma EndpointNotInPool(cfg: NetworkConfig, p: Pool)
    requires Valid(cfg) && p in cfg.pools && p.cidr.Valid()
    ensures PoolLow(p.cidr) != FirstNetwork(cfg).vmEnd
  {
    FirstFacts(cfg, p);
    ValidPoolsAreApart(cfg);
    PoolRange(p);
    SubnetBlock(cfg.supernet, cfg.clusterPrefix, 0);
    PairLayout(cfg, FirstNetwork(cfg), 0);
    assert InPool(p, PoolLow(p.cidr));
  }

  // --- An overdrawn host ---

  const HUGE_GIB := U64_END - 0x1_0000_0000

  /** A VM with one disk of 2^64 - 2^32 GiB. */
  function HugeVm(cfg: NetworkConfig, c: string, h: string, v: string): Vm
    requires Carvable(cfg)
  {
    FirstVm(cfg, c, h, v).(dataGib := HUGE_GIB)
  }

  lemma HugeNeedsNothing(vm: Vm, r: Resource)
    requires vm.cpu == vm.memory == vm.rootfsGib == 0 && vm.dataGib == HUGE_GIB
    ensures Need(vm, r) <= 0 && Oversized(vm)
  {
    if r == Data { assert AsI64(vm.dataGib % U64_END) == -0x1_0000_0000; }
  }

  lemma HugeRowOverdraws(s: Tables, ratio: Ratio, v: string, vm: Vm, row: DiskRow)
    requires ratio.Valid() && Modest(s) && s.disks == map[] && v !in s.vms && vm.name == v && vm.cluster in s.clusters
    requires vm.host in s.hosts && s.hosts[vm.host].healthy && s.hosts[vm.host].dataBytes < I64_END
    requires vm.cpu == vm.memory == vm.rootfsGib == 0 && vm.dataGib == HUGE_GIB
    ensures var (t, r) := InsertVm(s, ratio, v, vm, [], [row]); r.Ok? && !HostWithin(t, ratio, vm.host, Data)
  {
    forall r ensures Need(vm, r) <= 0 && Oversized(vm) { HugeNeedsNothing(vm, r); }
    VmCommits(s, ratio, v, vm, [row]);
    OversizedOverdraws(InsertVm(s, ratio, v, vm, [], [row]).0, ratio, v);
  }

  /** A run in which a host without a byte for data gets a VM with a disk of 2^64 - 2^32 GiB. */
  lemma HostCanBeOverdrawn(cfg: NetworkConfig, ratio: Ratio, p: Pool, c: string, h: string, v: string, row: DiskRow)
    returns (tr: seq<Tables>, steps: seq<Step>)
    requires Valid(cfg) && ratio.Valid() && p in cfg.pools && p.cidr.Valid()
    ensures ProperRun(cfg, ratio, tr, steps) && forall j :: 0 <= j < |steps| ==> NoShrink(tr[j], ratio, steps[j])
    ensures !HostWithin(tr[|steps|], ratio, h, Data)
  {
    var s := WithClaim(cfg, WithCluster(cfg, WithHost(h), p, c), c, v);
    tr, steps := AddressIsGiven(cfg, ratio, p, c, h, v);
    HugeRowOverdraws(s, ratio, v, HugeVm(cfg, c, h, v), row);
    tr, steps := InsertTheVm(cfg, ratio, tr, steps, s, {c}, 3, v, HugeVm(cfg, c, h, v), [row]);
  }
}
