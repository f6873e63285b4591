/**
 Cluster networks: a VNI and a block per cluster.

 The allocator searches the VNIs and the blocks separately, each from the
 lowest, on a snapshot it does not hold on to. Only the VNI is unique in the
 database. Blocks stay disjoint all the same, because on tables whose rows
 pair the k-th VNI with the k-th subnet both searches stop at the same k.
 */
module Networks {
  import opened Ipv4
  import opened Config
  import opened Tables

  // --- Carving ---

  function Carve(vni: nat, cidr: Cidr, bridgeReserve: nat): Network
    requires cidr.Valid() && cidr.len <= 30
  {
    Pow2Monotone(2, 32 - cidr.len);
    var net, last := cidr.Network(), cidr.Broadcast();
    Network(vni, cidr, net + 1, net + bridgeReserve, net + bridgeReserve + 1, last - 1)
  }

  /** The apiserver address of a private cluster: the last usable one. */
  function PrivateEndpoint(n: Network): nat
    requires n.cidr.Valid() && n.cidr.len <= 30
  {
    Pow2Monotone(2, 32 - n.cidr.len);
    n.cidr.Broadcast() - 1
  }

  // --- The allocator ---

  predicate Blocked(s: Tables, c: Cidr)
    requires c.Valid() && forall id :: id in s.clusters ==> s.clusters[id].net.cidr.Valid()
  {
    exists id :: id in s.clusters && Overlap(s.clusters[id].net.cidr, c)
  }

  predicate Parses(s: Tables) {
    forall id :: id in s.clusters ==> s.clusters[id].net.cidr.Valid()
  }

  function UsedVnis(s: Tables): set<nat> {
    set id | id in s.clusters :: s.clusters[id].net.vni
  }

  ghost predicate VniFound(cfg: NetworkConfig, s: Tables, vni: nat) {
    && cfg.vniStart <= vni <= cfg.vniEnd && vni !in UsedVnis(s)
    && forall n :: cfg.vniStart <= n < vni ==> n in UsedVnis(s)
  }

  ghost predicate SubnetFound(cfg: NetworkConfig, s: Tables, k: nat)
    requires Carvable(cfg) && Parses(s)
  {
    && k < SubnetCount(cfg.supernet, cfg.clusterPrefix)
    && SubnetFree(cfg, s, k)
    && forall j :: 0 <= j < k ==> !SubnetFree(cfg, s, j)
  }

  ghost predicate SubnetFree(cfg: NetworkConfig, s: Tables, k: nat)
    requires Carvable(cfg) && Parses(s)
  {
    var c := Subnet(cfg.supernet, cfg.clusterPrefix, k);
    c.Valid() && !Blocked(s, c)
  }

  /** What the allocator may answer on tables `s`: the lowest free VNI with the lowest free block. */
  ghost predicate Offered(cfg: NetworkConfig, s: Tables, n: Network)
    requires Carvable(cfg)
  {
    Parses(s) && exists k: nat :: OfferedAt(cfg, s, n, k)
  }

  ghost predicate OfferedAt(cfg: NetworkConfig, s: Tables, n: Network, k: nat)
    requires Carvable(cfg) && Parses(s)
  {
    && SubnetFound(cfg, s, k) && VniFound(cfg, s, n.vni)
    && n == Carve(n.vni, Subnet(cfg.supernet, cfg.clusterPrefix, k), cfg.bridgeReserve)
  }

  /** Every VNI of the range is used, or every subnet of the supernet is. */
  ghost predicate NoneLeft(cfg: NetworkConfig, s: Tables)
    requires Carvable(cfg)
  {
    && Parses(s)
    && ((forall v :: cfg.vniStart <= v <= cfg.vniEnd ==> v in UsedVnis(s))
        || (forall k :: 0 <= k < SubnetCount(cfg.supernet, cfg.clusterPrefix) ==> !SubnetFree(cfg, s, k)))
  }

  // --- Pairing ---

  /** The network that pairs the k-th VNI with the k-th subnet. */
  ghost predicate IsPair(cfg: NetworkConfig, n: Network, k: nat)
    requires Carvable(cfg)
  {
    && k < SubnetCount(cfg.supernet, cfg.clusterPrefix) && cfg.vniStart + k <= cfg.vniEnd
    && Subnet(cfg.supernet, cfg.clusterPrefix, k).Valid()
    && n == Carve(cfg.vniStart + k, Subnet(cfg.supernet, cfg.clusterPrefix, k), cfg.bridgeReserve)
  }

  ghost predicate Paired(cfg: NetworkConfig, s: Tables)
    requires Carvable(cfg)
  {
    forall id :: id in s.clusters ==> exists k: nat :: IsPair(cfg, s.clusters[id].net, k)
  }

  /** The pair `j` uses VNI `k` of the range, and overlaps subnet `k`, exactly when `j == k`. */
  lemma PairAgainst(cfg: NetworkConfig, n: Network, j: nat, k: nat)
    requires Carvable(cfg) && IsPair(cfg, n, j) && k < SubnetCount(cfg.supernet, cfg.clusterPrefix)
    ensures n.cidr.Valid() && Subnet(cfg.supernet, cfg.clusterPrefix, k).Valid()
    ensures n.vni == cfg.vniStart + k <==> Overlap(n.cidr, Subnet(cfg.supernet, cfg.clusterPrefix, k))
  {
    SubnetsDisjoint(cfg.supernet, cfg.clusterPrefix, j, k);
  }

  /** The cluster uses the VNI exactly when it overlaps the block. */
  ghost predicate UsesBothOrNone(s: Tables, id: string, vni: nat, c: Cidr)
    requires id in s.clusters && c.Valid() && Parses(s)
  {
    s.clusters[id].net.vni == vni <==> Overlap(s.clusters[id].net.cidr, c)
  }

  lemma ClusterAgainst(cfg: NetworkConfig, s: Tables, id: string, k: nat)
    requires Carvable(cfg) && Paired(cfg, s) && Parses(s) && id in s.clusters && k < SubnetCount(cfg.supernet, cfg.clusterPrefix)
    ensures Subnet(cfg.supernet, cfg.clusterPrefix, k).Valid()
    ensures UsesBothOrNone(s, id, cfg.vniStart + k, Subnet(cfg.supernet, cfg.clusterPrefix, k))
  {
    var j: nat :| IsPair(cfg, s.clusters[id].net, j);
    PairAgainst(cfg, s.clusters[id].net, j, k);
  }

  lemma UsedIffBlocked(s: Tables, vni: nat, c: Cidr)
    requires c.Valid() && Parses(s) && forall id :: id in s.clusters ==> UsesBothOrNone(s, id, vni, c)
    ensures vni in UsedVnis(s) <==> Blocked(s, c)
  {
  }

  /** On paired tables, the k-th VNI is in use exactly when the k-th subnet is. */
  lemma VniUsedIffSubnetBlocked(cfg: NetworkConfig, s: Tables, k: nat)
    requires Carvable(cfg) && Paired(cfg, s) && Parses(s) && k < SubnetCount(cfg.supernet, cfg.clusterPrefix)
    ensures cfg.vniStart + k in UsedVnis(s) <==> !SubnetFree(cfg, s, k)
  {
    var c := Subnet(cfg.supernet, cfg.clusterPrefix, k);
    assert c.Valid() by { SubnetBlock(cfg.supernet, cfg.clusterPrefix, k); }
    forall id | id in s.clusters ensures UsesBothOrNone(s, id, cfg.vniStart + k, c) {
      ClusterAgainst(cfg, s, id, k);
    }
    UsedIffBlocked(s, cfg.vniStart + k, c);
  }

  /** The two searches stop at the same place, so an offer made on paired tables is a pair. */
  lemma OfferIsPair(cfg: NetworkConfig, s: Tables, n: Network)
    requires Carvable(cfg) && Paired(cfg, s) && Offered(cfg, s, n)
    ensures exists k: nat :: IsPair(cfg, n, k)
  {
    var k: nat :| OfferedAt(cfg, s, n, k);
    var i := n.vni - cfg.vniStart;
    assert i == k by {
      if i < k {
        VniUsedIffSubnetBlocked(cfg, s, i);
      } else {
        VniUsedIffSubnetBlocked(cfg, s, k);
      }
    }
    assert IsPair(cfg, n, k);
  }

  /** Paired clusters with different VNIs have blocks without a common address. */
  lemma PairedAreDisjoint(cfg: NetworkConfig, s: Tables, a: string, b: string)
    requires Carvable(cfg) && Paired(cfg, s) && UniqueClusters(s)
    requires a in s.clusters && b in s.clusters && a != b
    ensures s.clusters[a].net.cidr.Valid() && s.clusters[b].net.cidr.Valid()
    ensures Disjoint(s.clusters[a].net.cidr, s.clusters[b].net.cidr)
  {
    var j: nat :| IsPair(cfg, s.clusters[a].net, j);
    var k: nat :| IsPair(cfg, s.clusters[b].net, k);
    SubnetsDisjoint(cfg.supernet, cfg.clusterPrefix, j, k);
    OverlapIsNotDisjoint(s.clusters[a].net.cidr, s.clusters[b].net.cidr);
  }

  /** How a valid configuration lays out a block: network, bridges, VMs, broadcast, each non-empty part in order. */
  lemma PairLayout(cfg: NetworkConfig, n: Network, k: nat)
    requires Carvable(cfg) && IsPair(cfg, n, k)
    ensures n.cidr.Valid()
    ensures n.cidr.Network() < n.bridgeStart == n.cidr.Network() + 1
    ensures n.bridgeEnd < n.vmStart == n.bridgeEnd + 1
    ensures n.bridgeEnd - n.bridgeStart + 1 == cfg.bridgeReserve
    ensures n.vmStart <= n.vmEnd == n.cidr.Broadcast() - 1 == PrivateEndpoint(n)
    ensures cfg.supernet.Contains(n.cidr.Network()) && cfg.supernet.Contains(n.cidr.Broadcast())
  {
    SubnetBlock(cfg.supernet, cfg.clusterPrefix, k);
  }
}
