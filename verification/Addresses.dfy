/**
 Who may hold which address.

 The address table has one key for all scopes, while each allocator looks at
 its own scope only. What keeps them apart is the configuration (pools and
 supernet share no address), the pairing of networks, and the rows a cluster
 reserves before it is inserted.
 */
module Addresses {
  import opened Ipv4
  import opened Config
  import opened Tables
  import opened Networks
  import opened ServiceBlocks
  import opened Teardown
  import opened Controller

  // --- Where addresses come from and where they go ---

  ghost predicate InPool(p: Pool, a: nat) {
    p.cidr.Valid() && p.cidr.len < 31 && PoolLow(p.cidr) <= a <= PoolHigh(p.cidr)
  }

  /** Address `a`, new in the table, is entered as `h` by `step` on tables `s`. */
  ghost predicate Entered(s: Tables, step: Step, a: nat, h: Holding)
    requires Typed(step)
  {
    match step
    case VipAllocate(p, c) =>
      h == Holding(PoolScope(p.name), OfCluster(c)) && InPool(p, a) && a !in HostAddresses(s)
    case BlockAllocate(p, c, _) =>
      h == Holding(PoolScope(p.name), OfCluster(c)) && InPool(p, a) && a !in HostAddresses(s)
    case EndpointReserve(c, n, _) =>
      h == Holding(ClusterScope(c), OfCluster(c)) && a == PrivateEndpoint(n)
    case VmIpAllocate(c, n, v, _) =>
      h == Holding(ClusterScope(c), OfVm(v)) && a !in HostAddresses(s) && n.vmStart <= a && (a <= n.vmEnd || a == n.vmStart)
    case _ => false
  }

  /** Block arithmetic does not wrap: the exact condition for an allocated block to lie in its pool. */
  predicate NoWrap(step: Step)
    requires Typed(step)
  {
    step.BlockAllocate? ==> PoolLow(step.pool.cidr) + step.count - 1 < ADDRESS_END
  }

  lemma PoolRange(p: Pool)
    requires p.cidr.Valid() && p.cidr.len < 31
    ensures PoolLow(p.cidr) <= PoolHigh(p.cidr) < ADDRESS_END
    ensures forall a :: InPool(p, a) ==> p.cidr.Contains(a) && a != p.cidr.Network() && a != p.cidr.Broadcast()
  {
    Pow2Monotone(2, 32 - p.cidr.len);
    BlockBounds(p.cidr);
  }

  lemma BlockEntered(ratio: Ratio, s: Tables, step: Step, a: nat)
    requires ratio.Valid() && Typed(step) && NoWrap(step) && step.BlockAllocate?
    requires a in Apply(ratio, s, step).ips && a !in s.ips
    ensures Entered(s, step, a, Apply(ratio, s, step).ips[a])
  {
    var p, count := step.pool, step.count;
    PoolRange(p);
    var taken := Taken(s, PoolScope(p.name));
    BlockIsLowest(taken, PoolLow(p.cidr), PoolHigh(p.cidr), count);
    var b := FindBlock(taken, AlignUp(PoolLow(p.cidr), count), count, PoolHigh(p.cidr)).value;
    assert b <= a < b + count && a !in taken;
  }

  lemma RangeEntered(s: Tables, scope: Scope, lo: nat, hi: nat, o: Owner, a: nat)
    requires a in AllocateFromRange(s, scope, lo, hi, o).0.ips
    ensures var t := AllocateFromRange(s, scope, lo, hi, o).0;
      if a in s.ips then t.ips[a] == s.ips[a]
      else t.ips[a] == Holding(scope, o) && a !in HostAddresses(s) && lo <= a && (a <= hi || a == lo)
  {
  }

  lemma SingleEntered(ratio: Ratio, s: Tables, step: Step, a: nat)
    requires ratio.Valid() && Typed(step) && (step.VipAllocate? || step.EndpointReserve? || step.VmIpAllocate?)
    requires a in Apply(ratio, s, step).ips
    ensures var t := Apply(ratio, s, step);
      if a in s.ips then t.ips[a] == s.ips[a] else Entered(s, step, a, t.ips[a])
  {
    if step.VipAllocate? {
      var p := step.pool;
      PoolRange(p);
      RangeEntered(s, PoolScope(p.name), PoolLow(p.cidr), PoolHigh(p.cidr), OfCluster(step.cluster), a);
    } else if step.VmIpAllocate? {
      RangeEntered(s, ClusterScope(step.cluster), step.net.vmStart, step.net.vmEnd, OfVm(step.vm), a);
    }
  }

  /** An address in the table was there before, unchanged, or the step entered it. */
  lemma AddressesCome(ratio: Ratio, s: Tables, step: Step, a: nat)
    requires ratio.Valid() && Typed(step) && NoWrap(step) && a in Apply(ratio, s, step).ips
    ensures var t := Apply(ratio, s, step);
      if a in s.ips then t.ips[a] == s.ips[a] else Entered(s, step, a, t.ips[a])
  {
    if step.BlockAllocate? {
      if a !in s.ips { BlockEntered(ratio, s, step, a); }
    } else if step.VipAllocate? || step.EndpointReserve? || step.VmIpAllocate? {
      SingleEntered(ratio, s, step, a);
    } else if OnlyVms(step) {
      VmStep(ratio, s, step);
    } else if step.TombstoneAck? {
      AckDeletesOnlyPending(s, step.host, step.vnis, step.vms);
    }
  }

  /** An address of a cluster leaves the table when it is released by hand or goes with the cluster, and only then. */
  lemma ClusterAddressGoesIff(ratio: Ratio, s: Tables, step: Step, a: nat)
    requires ratio.Valid() && Typed(step) && NoWrap(step) && a in s.ips && s.ips[a].owner.OfCluster?
    ensures var t, c := Apply(ratio, s, step), s.ips[a].owner.cluster;
      && (a !in t.ips <==> step == IpsRelease(OfCluster(c)) || (step.TombstoneAck? && c in s.clusters && c !in t.clusters))
      && (a in t.ips ==> t.ips[a] == s.ips[a])
  {
    if a in Apply(ratio, s, step).ips { AddressesCome(ratio, s, step, a); }
    if OnlyVms(step) {
      VmStep(ratio, s, step);
    } else if step.TombstoneAck? {
      AckDeletesOnlyPending(s, step.host, step.vnis, step.vms);
    }
  }

  // --- What a cluster has reserved ---

  ghost predicate Holds(s: Tables, a: nat, h: Holding) {
    a in s.ips && s.ips[a] == h
  }

  /** Its endpoint and the whole of its service block are entered under the cluster. */
  ghost predicate Provisioned(s: Tables, c: string, row: Cluster) {
    && (row.public ==> Holds(s, row.endpoint, Holding(PoolScope(row.pool), OfCluster(c))))
    && (!row.public ==> row.endpoint == row.net.vmEnd && Holds(s, row.endpoint, Holding(ClusterScope(c), OfCluster(c))))
    && (row.block.Some? ==> row.block.value.Valid())
    && (row.block.Some? ==>
          forall a :: row.block.value.Contains(a) ==> Holds(s, a, Holding(PoolScope(row.pool), OfCluster(c))))
  }

  /** What the callers see to: a cluster's addresses are released by hand only while it is not there. */
  ghost predicate Proper(s: Tables, step: Step) {
    && Typed(step) && NoWrap(step)
    && (step.IpsRelease? && step.owner.OfCluster? ==> step.owner.cluster !in s.clusters)
  }

  /** Step `j` asked for the endpoint of cluster `c`, from its pool or in its network, and was answered the row's. */
  ghost predicate GaveEndpoint(tr: seq<Tables>, steps: seq<Step>, j: nat, c: string, row: Cluster)
    requires j < |steps| && j < |tr|
  {
    && Typed(steps[j])
    && match steps[j]
       case VipAllocate(p, d) =>
         && row.public && d == c && p.name == row.pool
         && AllocateFromRange(tr[j], PoolScope(p.name), PoolLow(p.cidr), PoolHigh(p.cidr), OfCluster(c)).1 == Ok(row.endpoint)
       case EndpointReserve(d, n, _) =>
         && !row.public && d == c && n == row.net && row.endpoint == PrivateEndpoint(n)
         && ReserveSpecificIp(tr[j], ClusterScope(c), row.endpoint, OfCluster(c)).1.Ok?
       case _ => false
  }

  /** Step `j` asked for a service block for cluster `c` from its pool and was answered the row's. */
  ghost predicate GaveBlock(tr: seq<Tables>, steps: seq<Step>, j: nat, c: string, row: Cluster)
    requires j < |steps| && j < |tr|
  {
    && Typed(steps[j]) && steps[j].BlockAllocate? && steps[j].cluster == c && steps[j].pool.name == row.pool && row.block.Some?
    && var p := steps[j].pool.cidr;
       AllocateBlock(tr[j], PoolScope(row.pool), PoolLow(p), PoolHigh(p), OfCluster(c), steps[j].count).1 == Ok(row.block.value)
  }

  ghost predicate Unreleased(steps: seq<Step>, lo: nat, hi: nat, c: string)
    requires hi <= |steps|
  {
    forall m :: lo <= m < hi ==> steps[m] != IpsRelease(OfCluster(c))
  }

  /**
   A cluster is inserted with an endpoint and a service block that earlier steps
   answered for it and that were not released since; if an endpoint was reserved
   under its identifier, then in the network it is inserted with.
   */
  ghost predicate Reserved(tr: seq<Tables>, steps: seq<Step>, i: nat)
    requires i < |steps| && i < |tr|
  {
    steps[i].ClusterInsert? ==>
      var c, row := steps[i].cluster, steps[i].row;
      && (exists j :: 0 <= j < i && GaveEndpoint(tr, steps, j, c, row) && Unreleased(steps, j + 1, i, c))
      && (row.block.Some? ==> exists j :: 0 <= j < i && GaveBlock(tr, steps, j, c, row) && Unreleased(steps, j + 1, i, c))
      && (forall m :: 0 <= m < i && steps[m].EndpointReserve? && steps[m].cluster == c ==> steps[m].net == row.net)
  }

  /** Step `j` asked for an address for VM `v` of cluster `c` and was answered `a`. */
  ghost predicate Gave(tr: seq<Tables>, steps: seq<Step>, j: nat, c: string, v: string, a: nat)
    requires j < |steps| && j < |tr|
  {
    && steps[j].VmIpAllocate? && steps[j].cluster == c && steps[j].vm == v
    && AllocateFromRange(tr[j], ClusterScope(c), steps[j].net.vmStart, steps[j].net.vmEnd, OfVm(v)).1 == Ok(a)
  }

  /** A VM is inserted with an address that some earlier step answered for it. */
  ghost predicate Allotted(tr: seq<Tables>, steps: seq<Step>, i: nat)
    requires i < |steps| && i < |tr|
  {
    steps[i].VmInsert? ==>
      exists j :: 0 <= j < i && Gave(tr, steps, j, steps[i].entry.cluster, steps[i].vm, steps[i].entry.ip)
  }

  ghost predicate ProperRun(cfg: NetworkConfig, ratio: Ratio, tr: seq<Tables>, steps: seq<Step>)
    requires Carvable(cfg) && ratio.Valid()
  {
    && Run(cfg, ratio, tr, steps) && tr[0] == EMPTY
    && (forall i {:trigger Proper(tr[i], steps[i])} :: 0 <= i < |steps| ==> Proper(tr[i], steps[i]))
    && (forall i :: 0 <= i < |steps| ==> Reserved(tr, steps, i))
    && (forall i :: 0 <= i < |steps| ==> Allotted(tr, steps, i))
  }

  lemma EndpointIsGiven(cfg: NetworkConfig, ratio: Ratio, tr: seq<Tables>, steps: seq<Step>, j: nat, c: string, row: Cluster)
    requires Carvable(cfg) && ratio.Valid() && ProperRun(cfg, ratio, tr, steps) && j < |steps|
    requires GaveEndpoint(tr, steps, j, c, row)
    ensures Holds(tr[j + 1], row.endpoint, Holding(if row.public then PoolScope(row.pool) else ClusterScope(c), OfCluster(c)))
  {
  }

  lemma BlockIsGiven(cfg: NetworkConfig, ratio: Ratio, tr: seq<Tables>, steps: seq<Step>, j: nat, c: string, row: Cluster,
                     a: nat)
    requires Carvable(cfg) && ratio.Valid() && ProperRun(cfg, ratio, tr, steps) && j < |steps|
    requires GaveBlock(tr, steps, j, c, row)
    ensures row.block.value.Valid()
    ensures row.block.value.Contains(a) ==> Holds(tr[j + 1], a, Holding(PoolScope(row.pool), OfCluster(c)))
  {
    var p, count, b := steps[j].pool, steps[j].count, row.block.value;
    assert Proper(tr[j], steps[j]);
    PoolRange(p);
    BlockIsLowest(Taken(tr[j], PoolScope(p.name)), PoolLow(p.cidr), PoolHigh(p.cidr), count);
    assert b.Size() == count && b.Network() == b.addr;
  }

  /** What a cluster that has not been there yet was given stays until it is released. */
  lemma {:induction false} UnseenKeeps(cfg: NetworkConfig, ratio: Ratio, tr: seq<Tables>, steps: seq<Step>, lo: nat, i: nat,
                                       c: string, a: nat, h: Holding)
    requires Carvable(cfg) && ratio.Valid() && ProperRun(cfg, ratio, tr, steps) && lo <= i <= |steps|
    requires NeverSeen(tr, i, c) && Unreleased(steps, lo, i, c) && h.owner == OfCluster(c) && Holds(tr[lo], a, h)
    ensures Holds(tr[i], a, h)
    decreases i
  {
    if lo < i {
      UnseenKeeps(cfg, ratio, tr, steps, lo, i - 1, c, a, h);
      assert Legal(cfg, tr, i - 1, steps[i - 1]) && Proper(tr[i - 1], steps[i - 1]) && c !in tr[i - 1].clusters;
      ClusterAddressGoesIff(ratio, tr[i - 1], steps[i - 1], a);
    }
  }

  lemma EndpointIsHeld(cfg: NetworkConfig, ratio: Ratio, tr: seq<Tables>, steps: seq<Step>, i: nat)
    requires Carvable(cfg) && ratio.Valid() && ProperRun(cfg, ratio, tr, steps) && i < |steps| && steps[i].ClusterInsert?
    ensures var c, row := steps[i].cluster, steps[i].row;
      Holds(tr[i], row.endpoint, Holding(if row.public then PoolScope(row.pool) else ClusterScope(c), OfCluster(c)))
    ensures !steps[i].row.public ==> steps[i].row.endpoint == steps[i].row.net.vmEnd
  {
    var c, row := steps[i].cluster, steps[i].row;
    assert Reserved(tr, steps, i) && Legal(cfg, tr, i, steps[i]);
    var j :| 0 <= j < i && GaveEndpoint(tr, steps, j, c, row) && Unreleased(steps, j + 1, i, c);
    EndpointIsGiven(cfg, ratio, tr, steps, j, c, row);
    UnseenKeeps(cfg, ratio, tr, steps, j + 1, i, c, row.endpoint, tr[j + 1].ips[row.endpoint]);
    NetworkInUse(cfg, ratio, tr, steps, i);
  }

  lemma BlockIsHeld(cfg: NetworkConfig, ratio: Ratio, tr: seq<Tables>, steps: seq<Step>, i: nat, a: nat)
    requires Carvable(cfg) && ratio.Valid() && ProperRun(cfg, ratio, tr, steps) && i < |steps| && steps[i].ClusterInsert?
    requires steps[i].row.block.Some?
    ensures var c, row := steps[i].cluster, steps[i].row;
      && row.block.value.Valid()
      && (row.block.value.Contains(a) ==> Holds(tr[i], a, Holding(PoolScope(row.pool), OfCluster(c))))
  {
    var c, row := steps[i].cluster, steps[i].row;
    assert Reserved(tr, steps, i) && Legal(cfg, tr, i, steps[i]);
    var j :| 0 <= j < i && GaveBlock(tr, steps, j, c, row) && Unreleased(steps, j + 1, i, c);
    BlockIsGiven(cfg, ratio, tr, steps, j, c, row, a);
    if row.block.value.Contains(a) {
      UnseenKeeps(cfg, ratio, tr, steps, j + 1, i, c, a, Holding(PoolScope(row.pool), OfCluster(c)));
    }
  }

  /** What was reserved for a cluster is there when it is inserted. */
  lemma ReservedIsProvisioned(cfg: NetworkConfig, ratio: Ratio, tr: seq<Tables>, steps: seq<Step>, i: nat)
    requires Carvable(cfg) && ratio.Valid() && ProperRun(cfg, ratio, tr, steps) && i < |steps| && steps[i].ClusterInsert?
    ensures Provisioned(tr[i], steps[i].cluster, steps[i].row)
  {
    var c, row := steps[i].cluster, steps[i].row;
    EndpointIsHeld(cfg, ratio, tr, steps, i);
    if row.block.Some? {
      BlockIsHeld(cfg, ratio, tr, steps, i, 0);
      forall a | row.block.value.Contains(a) ensures Holds(tr[i], a, Holding(PoolScope(row.pool), OfCluster(c))) {
        BlockIsHeld(cfg, ratio, tr, steps, i, a);
      }
    }
  }

  /** The scope of a cluster that has not been there yet holds only endpoints reserved for it. */
  lemma {:induction false} UnseenScope(cfg: NetworkConfig, ratio: Ratio, tr: seq<Tables>, steps: seq<Step>, i: nat,
                                       c: string, a: nat)
    requires Carvable(cfg) && ratio.Valid() && ProperRun(cfg, ratio, tr, steps) && i <= |steps| && NeverSeen(tr, i, c)
    requires a in tr[i].ips && tr[i].ips[a].scope == ClusterScope(c)
    ensures exists m :: 0 <= m < i && steps[m].EndpointReserve? && steps[m].cluster == c
                        && steps[m].net.cidr.Valid() && steps[m].net.cidr.len <= 30 && a == PrivateEndpoint(steps[m].net)
    decreases i
  {
    if i > 0 {
      var s, step := tr[i - 1], steps[i - 1];
      assert Legal(cfg, tr, i - 1, step) && Proper(s, step);
      AddressesCome(ratio, s, step, a);
      if a in s.ips { UnseenScope(cfg, ratio, tr, steps, i - 1, c, a); }
    }
  }

  lemma ScopeAtInsert(cfg: NetworkConfig, ratio: Ratio, tr: seq<Tables>, steps: seq<Step>, i: nat, a: nat)
    requires Carvable(cfg) && ratio.Valid() && ProperRun(cfg, ratio, tr, steps) && i < |steps| && steps[i].ClusterInsert?
    requires a in tr[i].ips && tr[i].ips[a].scope == ClusterScope(steps[i].cluster)
    ensures steps[i].row.net.vmStart <= a == steps[i].row.net.vmEnd
  {
    var c := steps[i].cluster;
    assert Reserved(tr, steps, i) && Legal(cfg, tr, i, steps[i]);
    UnseenScope(cfg, ratio, tr, steps, i, c, a);
    NetworkInUse(cfg, ratio, tr, steps, i);
  }

  lemma ProvisionedStays(ratio: Ratio, s: Tables, step: Step, c: string)
    requires ratio.Valid() && Proper(s, step) && c in s.clusters && c in Apply(ratio, s, step).clusters
    requires Provisioned(s, c, s.clusters[c])
    ensures Provisioned(Apply(ratio, s, step), c, Apply(ratio, s, step).clusters[c])
  {
    var t := Apply(ratio, s, step);
    ClusterRowsCome(ratio, s, step, c);
    forall a | a in s.ips && s.ips[a].owner == OfCluster(c) ensures a in t.ips && t.ips[a] == s.ips[a] {
      ClusterAddressGoesIff(ratio, s, step, a);
    }
  }

  lemma NewIsProvisioned(cfg: NetworkConfig, ratio: Ratio, tr: seq<Tables>, steps: seq<Step>, i: nat, c: string)
    requires Carvable(cfg) && ratio.Valid() && ProperRun(cfg, ratio, tr, steps) && i < |steps|
    requires c in tr[i + 1].clusters && c !in tr[i].clusters
    ensures Provisioned(tr[i + 1], c, tr[i + 1].clusters[c])
  {
    assert Legal(cfg, tr, i, steps[i]);
    ClusterRowsCome(ratio, tr[i], steps[i], c);
    ReservedIsProvisioned(cfg, ratio, tr, steps, i);
    assert tr[i + 1].ips == tr[i].ips;
  }

  /** In every state of a run every cluster holds its endpoint and its service block: what was reserved before it was there. */
  lemma {:induction false} ClustersStayProvisioned(cfg: NetworkConfig, ratio: Ratio, tr: seq<Tables>, steps: seq<Step>,
                                                   i: nat, c: string)
    requires Carvable(cfg) && ratio.Valid() && ProperRun(cfg, ratio, tr, steps) && i < |tr| && c in tr[i].clusters
    ensures Provisioned(tr[i], c, tr[i].clusters[c])
    decreases i
  {
    if i > 0 {
      if c in tr[i - 1].clusters {
        ClustersStayProvisioned(cfg, ratio, tr, steps, i - 1, c);
        assert Proper(tr[i - 1], steps[i - 1]);
        ProvisionedStays(ratio, tr[i - 1], steps[i - 1], c);
      } else {
        NewIsProvisioned(cfg, ratio, tr, steps, i - 1, c);
      }
    }
  }

  // --- Every held address lies where its scope says ---

  /** A pool's scope holds addresses of the pool, a cluster's those of the supernet, and of its VM range while it is there. */
  ghost predicate ScopeOk(cfg: NetworkConfig, s: Tables, a: nat, scope: Scope) {
    match scope
    case PoolScope(name) => exists p <- cfg.pools :: p.name == name && InPool(p, a)
    case ClusterScope(c) =>
      && cfg.supernet.Valid() && cfg.supernet.Contains(a)
      && (c in s.clusters ==> s.clusters[c].net.vmStart <= a <= s.clusters[c].net.vmEnd)
  }

  /** Every network a caller works with is a pair, so its VM range is not empty and lies in the supernet. */
  lemma NetworkInUse(cfg: NetworkConfig, ratio: Ratio, tr: seq<Tables>, steps: seq<Step>, i: nat)
    requires Carvable(cfg) && ratio.Valid() && Run(cfg, ratio, tr, steps) && tr[0] == EMPTY && i < |steps|
    requires steps[i].ClusterInsert? || steps[i].EndpointReserve? || steps[i].VmIpAllocate?
    ensures var n := if steps[i].ClusterInsert? then steps[i].row.net else steps[i].net;
      && n.cidr.Valid() && n.cidr.len <= 30 && n.vmStart <= n.vmEnd == PrivateEndpoint(n)
      && (forall a :: n.vmStart <= a <= n.vmEnd ==> cfg.supernet.Contains(a))
  {
    var step := steps[i];
    assert Legal(cfg, tr, i, step);
    var n := if step.ClusterInsert? then step.row.net else step.net;
    RunKeepsPairs(cfg, ratio, tr, steps, step.at);
    if !step.VmIpAllocate? { OfferIsPair(cfg, tr[step.at], n); }
    var k: nat :| IsPair(cfg, n, k);
    PairLayout(cfg, n, k);
  }

  lemma EnteredInScope(cfg: NetworkConfig, ratio: Ratio, tr: seq<Tables>, steps: seq<Step>, i: nat, a: nat)
    requires Carvable(cfg) && ratio.Valid() && ProperRun(cfg, ratio, tr, steps) && i < |steps|
    requires a in tr[i + 1].ips && a !in tr[i].ips
    ensures ScopeOk(cfg, tr[i], a, tr[i + 1].ips[a].scope) && tr[i + 1].clusters == tr[i].clusters
  {
    var s, step := tr[i], steps[i];
    assert Legal(cfg, tr, i, step) && Proper(s, step);
    AddressesCome(ratio, s, step, a);
    AddressStep(ratio, s, step);
    if step.VmIpAllocate? || step.EndpointReserve? {
      NetworkInUse(cfg, ratio, tr, steps, i);
      if step.VmIpAllocate? && step.cluster in s.clusters {
        RowsPersist(cfg, ratio, tr, steps, step.at, i, step.cluster);
      }
    }
  }

  lemma {:induction false} HeldAddressesAreInScope(cfg: NetworkConfig, ratio: Ratio, tr: seq<Tables>, steps: seq<Step>,
                                                   i: nat, a: nat)
    requires Carvable(cfg) && ratio.Valid() && ProperRun(cfg, ratio, tr, steps) && i < |tr| && a in tr[i].ips
    ensures ScopeOk(cfg, tr[i], a, tr[i].ips[a].scope)
    decreases i
  {
    if i > 0 {
      var s, step := tr[i - 1], steps[i - 1];
      assert Legal(cfg, tr, i - 1, step) && Proper(s, step);
      if a in s.ips {
        HeldAddressesAreInScope(cfg, ratio, tr, steps, i - 1, a);
        AddressesCome(ratio, s, step, a);
        var scope := s.ips[a].scope;
        if scope.ClusterScope? && scope.id in tr[i].clusters {
          ClusterRowsCome(ratio, s, step, scope.id);
          if scope.id !in s.clusters { ScopeAtInsert(cfg, ratio, tr, steps, i - 1, a); }
        }
      } else {
        EnteredInScope(cfg, ratio, tr, steps, i - 1, a);
      }
    }
  }

  // --- Theorems ---

  /** No pool shares an address with the supernet or, under another name, with another pool. */
  ghost predicate PoolsApart(cfg: NetworkConfig) {
    && cfg.supernet.Valid()
    && (forall p <- cfg.pools :: p.cidr.Valid() && p.cidr.len < 31 && Disjoint(cfg.supernet, p.cidr))
    && (forall p <- cfg.pools, q <- cfg.pools :: p.name != q.name ==> Disjoint(p.cidr, q.cidr))
    && (forall p <- cfg.pools, q <- cfg.pools :: p.name == q.name ==> p == q)
  }

  lemma ValidPoolsAreApart(cfg: NetworkConfig)
    requires Valid(cfg)
    ensures PoolsApart(cfg)
  {
    forall p <- cfg.pools, q <- cfg.pools
      ensures p.name != q.name ==> Disjoint(p.cidr, q.cidr)
      ensures p.name == q.name ==> p == q
    {
      var i :| 0 <= i < |cfg.pools| && cfg.pools[i] == p;
      var j :| 0 <= j < |cfg.pools| && cfg.pools[j] == q;
      assert PoolOk(cfg, i) && PoolOk(cfg, j);
    }
    forall p <- cfg.pools ensures p.cidr.len < 31 && Disjoint(cfg.supernet, p.cidr) {
      var i :| 0 <= i < |cfg.pools| && cfg.pools[i] == p;
      assert PoolOk(cfg, i);
    }
  }

  lemma ClusterInSupernet(cfg: NetworkConfig, s: Tables, c: string, x: nat)
    requires Carvable(cfg) && Paired(cfg, s) && c in s.clusters
    ensures s.clusters[c].net.cidr.Valid()
    ensures s.clusters[c].net.cidr.Contains(x) ==> cfg.supernet.Contains(x)
    ensures s.clusters[c].net.vmStart <= x <= s.clusters[c].net.vmEnd ==> s.clusters[c].net.cidr.Contains(x)
  {
    var k: nat :| IsPair(cfg, s.clusters[c].net, k);
    PairLayout(cfg, s.clusters[c].net, k);
  }

  /** The addresses a cluster may announce. */
  ghost predicate InSpace(s: Tables, c: string, x: nat)
    requires c in s.clusters
  {
    var row := s.clusters[c];
    || (row.net.cidr.Valid() && row.net.cidr.Contains(x))
    || (row.block.Some? && row.block.value.Valid() && row.block.value.Contains(x))
    || (row.public && x == row.endpoint)
  }

  /** Outside its own block, a cluster announces only pool addresses it holds. */
  lemma SpaceIsHeld(cfg: NetworkConfig, ratio: Ratio, tr: seq<Tables>, steps: seq<Step>, i: nat, c: string, x: nat)
    requires Valid(cfg) && ratio.Valid() && ProperRun(cfg, ratio, tr, steps) && i < |tr| && c in tr[i].clusters
    requires InSpace(tr[i], c, x)
    ensures tr[i].clusters[c].net.cidr.Valid()
    ensures tr[i].clusters[c].net.cidr.Contains(x)
      || (x in tr[i].ips && tr[i].ips[x].owner == OfCluster(c) && !cfg.supernet.Contains(x))
  {
    assert Paired(cfg, tr[i]) by { RunKeepsPairs(cfg, ratio, tr, steps, i); }
    ClusterInSupernet(cfg, tr[i], c, x);
    if !tr[i].clusters[c].net.cidr.Contains(x) {
      ClustersStayProvisioned(cfg, ratio, tr, steps, i, c);
      HeldAddressesAreInScope(cfg, ratio, tr, steps, i, x);
      ValidPoolsAreApart(cfg);
      var p :| p in cfg.pools && InPool(p, x);
      PoolRange(p);
    }
  }

  /** In every state of a run, no address is announced by two clusters. */
  lemma SpacesStayApart(cfg: NetworkConfig, ratio: Ratio, tr: seq<Tables>, steps: seq<Step>, i: nat,
                        c: string, d: string, x: nat)
    requires Valid(cfg) && ratio.Valid() && ProperRun(cfg, ratio, tr, steps) && i < |tr|
    requires c in tr[i].clusters && d in tr[i].clusters && c != d
    ensures !(InSpace(tr[i], c, x) && InSpace(tr[i], d, x))
  {
    if InSpace(tr[i], c, x) && InSpace(tr[i], d, x) {
      SpaceIsHeld(cfg, ratio, tr, steps, i, c, x);
      SpaceIsHeld(cfg, ratio, tr, steps, i, d, x);
      assert Paired(cfg, tr[i]) by { RunKeepsPairs(cfg, ratio, tr, steps, i); }
      ClusterInSupernet(cfg, tr[i], c, x);
      ClusterInSupernet(cfg, tr[i], d, x);
      ClusterBlocksStayDisjoint(cfg, ratio, tr, steps, i, c, d);
    }
  }

  /** The address is held under the scope of a cluster that is not in the table. */
  ghost predicate HeldByDead(s: Tables, a: nat) {
    a in s.ips && s.ips[a].scope.ClusterScope? && s.ips[a].scope.id !in s.clusters
  }

  /** An address that fits a live scope and is free in it is free in the whole table, or a dead cluster's scope holds it. */
  lemma FreeInScopeIsFree(cfg: NetworkConfig, ratio: Ratio, tr: seq<Tables>, steps: seq<Step>, i: nat, scope: Scope, a: nat)
    requires Valid(cfg) && ratio.Valid() && ProperRun(cfg, ratio, tr, steps) && i < |tr|
    requires ScopeOk(cfg, tr[i], a, scope) && (scope.ClusterScope? ==> scope.id in tr[i].clusters)
    requires a !in HeldIn(tr[i], scope)
    ensures a in tr[i].ips <==> HeldByDead(tr[i], a)
    ensures scope.PoolScope? ==> a !in tr[i].ips
  {
    if a in tr[i].ips {
      HeldAddressesAreInScope(cfg, ratio, tr, steps, i, a);
      ScopeBlock(cfg, ratio, tr, steps, i, scope, a);
      ScopeBlock(cfg, ratio, tr, steps, i, tr[i].ips[a].scope, a);
      if !HeldByDead(tr[i], a) { InOneScopeOnly(cfg, ratio, tr, steps, i, scope, tr[i].ips[a].scope, a); }
    }
  }

  lemma ScopeBlock(cfg: NetworkConfig, ratio: Ratio, tr: seq<Tables>, steps: seq<Step>, i: nat, scope: Scope, a: nat)
    requires Valid(cfg) && ratio.Valid() && ProperRun(cfg, ratio, tr, steps) && i < |tr|
    requires ScopeOk(cfg, tr[i], a, scope)
    ensures cfg.supernet.Contains(a) <==> scope.ClusterScope?
    ensures scope.ClusterScope? && scope.id in tr[i].clusters ==> InSpace(tr[i], scope.id, a)
  {
    if scope.ClusterScope? {
      assert Paired(cfg, tr[i]) by { RunKeepsPairs(cfg, ratio, tr, steps, i); }
      if scope.id in tr[i].clusters { ClusterInSupernet(cfg, tr[i], scope.id, a); }
    } else {
      ValidPoolsAreApart(cfg);
      var p :| p in cfg.pools && InPool(p, a);
      PoolRange(p);
    }
  }

  lemma InOneScopeOnly(cfg: NetworkConfig, ratio: Ratio, tr: seq<Tables>, steps: seq<Step>, i: nat, u: Scope, w: Scope, a: nat)
    requires Valid(cfg) && ratio.Valid() && ProperRun(cfg, ratio, tr, steps) && i < |tr|
    requires ScopeOk(cfg, tr[i], a, u) && (u.ClusterScope? ==> u.id in tr[i].clusters)
    requires ScopeOk(cfg, tr[i], a, w) && (w.ClusterScope? ==> w.id in tr[i].clusters)
    ensures u == w
  {
    ScopeBlock(cfg, ratio, tr, steps, i, u, a);
    ScopeBlock(cfg, ratio, tr, steps, i, w, a);
    if u.ClusterScope? {
      if u.id != w.id { SpacesStayApart(cfg, ratio, tr, steps, i, u.id, w.id, a); }
    } else {
      ValidPoolsAreApart(cfg);
      var p :| p in cfg.pools && p.name == u.name && InPool(p, a);
      var q :| q in cfg.pools && q.name == w.name && InPool(q, a);
      PoolRange(p);
      PoolRange(q);
    }
  }

  // --- VM rows ---

  /** The VM's address is in the VM range of its cluster. */
  ghost predicate AtHome(s: Tables, vm: Vm) {
    vm.cluster in s.clusters ==> s.clusters[vm.cluster].net.vmStart <= vm.ip <= s.clusters[vm.cluster].net.vmEnd
  }

  lemma AllottedAtHome(cfg: NetworkConfig, ratio: Ratio, tr: seq<Tables>, steps: seq<Step>, i: nat)
    requires Carvable(cfg) && ratio.Valid() && ProperRun(cfg, ratio, tr, steps) && i < |steps| && steps[i].VmInsert?
    ensures AtHome(tr[i], steps[i].entry)
  {
    var vm := steps[i].entry;
    assert Allotted(tr, steps, i);
    var j :| 0 <= j < i && Gave(tr, steps, j, vm.cluster, steps[i].vm, vm.ip);
    assert Legal(cfg, tr, j, steps[j]);
    if vm.cluster in tr[i].clusters {
      RowsPersist(cfg, ratio, tr, steps, steps[j].at, i, vm.cluster);
      NetworkInUse(cfg, ratio, tr, steps, j);
    }
  }

  /** A VM row was there before, with another state perhaps, or the step entered it. */
  lemma VmRowsCome(ratio: Ratio, s: Tables, step: Step, v: string)
    requires ratio.Valid() && Typed(step) && v in Apply(ratio, s, step).vms
    ensures var t := Apply(ratio, s, step);
      if v in s.vms then t.vms[v] == s.vms[v].(state := t.vms[v].state)
      else step.VmInsert? && v == step.vm && t.vms[v] == step.entry && t.clusters == s.clusters && t.ips == s.ips
  {
    if OnlyAddresses(step) {
      AddressStep(ratio, s, step);
    } else if step.VmReport? || step.VmsFail? {
      ReportStep(ratio, s, step);
    } else if step.TombstoneAck? {
      AckDeletesOnlyPending(s, step.host, step.vnis, step.vms);
    }
  }

  /** In every state of a run, every VM's address is in the VM range of its cluster. */
  lemma {:induction false} VmsStayHome(cfg: NetworkConfig, ratio: Ratio, tr: seq<Tables>, steps: seq<Step>, i: nat,
                                       v: string)
    requires Carvable(cfg) && ratio.Valid() && ProperRun(cfg, ratio, tr, steps) && i < |tr| && v in tr[i].vms
    ensures tr[i].vms[v].cluster in tr[i].clusters && AtHome(tr[i], tr[i].vms[v])
    decreases i
  {
    if i > 0 {
      var s, step, c := tr[i - 1], steps[i - 1], tr[i].vms[v].cluster;
      assert Legal(cfg, tr, i - 1, step);
      assert c in tr[i].clusters by { RunKeepsSchema(cfg, ratio, tr, steps, i); }
      VmRowsCome(ratio, s, step, v);
      if v in s.vms {
        VmsStayHome(cfg, ratio, tr, steps, i - 1, v);
        ClusterRowsCome(ratio, s, step, c);
      } else {
        AllottedAtHome(cfg, ratio, tr, steps, i - 1);
      }
    }
  }
}
