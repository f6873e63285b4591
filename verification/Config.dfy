/** The controller's network configuration and its start-up validation. */
module Config {
  import opened Ipv4
  import opened Naming

  datatype Pool = Pool(name: string, cidr: Cidr, tree: bool)

  datatype NetworkConfig = NetworkConfig(supernet: Cidr, clusterPrefix: nat, bridgeReserve: nat,
                                         vniStart: nat, vniEnd: nat, serviceIps: nat, pools: seq<Pool>)

  datatype ConfigError = BadPrefix | NoRoom | BadVniRange | BadServiceIps | NoPools | NoLanPool
                       | DuplicateName | EmptyName | PoolTooNarrow | PoolOverlap | BlockDoesNotFit

  /** A configuration as it is read in: parsed blocks, an 8-bit prefix length and 32-bit numbers. */
  predicate WellTyped(cfg: NetworkConfig) {
    && cfg.supernet.Valid() && cfg.clusterPrefix < 256 && cfg.bridgeReserve < ADDRESS_END
    && cfg.vniStart < ADDRESS_END && cfg.vniEnd < ADDRESS_END && cfg.serviceIps < ADDRESS_END
    && forall p <- cfg.pools :: p.cidr.Valid()
  }

  ghost predicate Disjoint(a: Cidr, b: Cidr)
    requires a.Valid() && b.Valid()
  {
    forall x :: !(a.Contains(x) && b.Contains(x))
  }

  ghost predicate PoolOk(cfg: NetworkConfig, i: nat)
    requires WellTyped(cfg) && i < |cfg.pools|
  {
    var p := cfg.pools[i];
    && p.name != "" && p.cidr.len < 31
    && Disjoint(cfg.supernet, p.cidr)
    && (forall j :: 0 <= j < i ==> cfg.pools[j].name != p.name && Disjoint(p.cidr, cfg.pools[j].cidr))
    && (cfg.serviceIps > 1 ==> 4 * cfg.serviceIps <= p.cidr.Size())
  }

  /** The supernet can be cut into cluster blocks with room for bridges and VMs. */
  predicate Carvable(cfg: NetworkConfig) {
    && cfg.supernet.Valid() && cfg.supernet.len <= cfg.clusterPrefix <= 30
    && cfg.bridgeReserve + 2 < Pow2(32 - cfg.clusterPrefix)
  }

  ghost predicate SizesOk(cfg: NetworkConfig) {
    && Carvable(cfg) && cfg.clusterPrefix > 0
    && 0 < cfg.vniStart <= cfg.vniEnd < Pow2(24)
    && IsPow2(cfg.serviceIps)
  }

  /**
   A valid configuration, said in terms of addresses: no two pools and no pool
   and the supernet share an address, each cluster block has room for its
   bridge and at least one VM, and each pool fits a default service block
   between its network and broadcast addresses.
   */
  ghost predicate Valid(cfg: NetworkConfig) {
    && WellTyped(cfg) && SizesOk(cfg)
    && (exists p <- cfg.pools :: !p.tree)
    && forall i :: 0 <= i < |cfg.pools| ==> PoolOk(cfg, i)
  }

  lemma OverlapIsNotDisjoint(a: Cidr, b: Cidr)
    requires a.Valid() && b.Valid()
    ensures Overlap(a, b) <==> !Disjoint(a, b)
  {
    OverlapIffShared(a, b);
  }

  /** The prefix comparison the code makes is the size comparison: a pool holds four blocks or is refused. */
  lemma BlockFits(cfg: NetworkConfig, net: Cidr)
    requires net.Valid() && net.len < 31 && cfg.serviceIps < ADDRESS_END && IsPow2(cfg.serviceIps)
    ensures TrailingZeros(cfg.serviceIps) < 32
    ensures var service := 32 - TrailingZeros(cfg.serviceIps);
      (service < 32 && net.len + 2 > service) <==> cfg.serviceIps > 1 && 4 * cfg.serviceIps > net.Size()
  {
    var k := TrailingZeros(cfg.serviceIps);
    PowerOfTwo(cfg.serviceIps);
    Pow2Of32();
    Pow2Order(32, k);
    FourBlocks(k, net);
  }

  lemma {:induction false} FourBlocks(k: nat, net: Cidr)
    requires net.len <= 32 && k < 32
    ensures Pow2(k) > 1 <==> k > 0
    ensures 4 * Pow2(k) <= net.Size() <==> k + 2 <= 32 - net.len
  {
    Pow2Order(k, 0);
    assert Pow2(k + 2) == 2 * Pow2(k + 1) == 4 * Pow2(k);
    Pow2Order(k + 2, 32 - net.len);
  }

  method CheckSizes(cfg: NetworkConfig) returns (e: Option<ConfigError>)
    requires WellTyped(cfg)
    ensures e.None? <==> SizesOk(cfg)
  {
    if cfg.clusterPrefix < cfg.supernet.len || cfg.clusterPrefix > 30 {
      return Some(BadPrefix);
    }
    // A 32-bit one shifted by 32 is a one again, so /0 clusters are refused here too.
    var addresses := if cfg.clusterPrefix == 0 then 1 else Pow2(32 - cfg.clusterPrefix);
    Pow2Of32();
    if cfg.clusterPrefix > 0 { Pow2Monotone(32 - cfg.clusterPrefix, 31); Pow2Monotone(31, 32); }
    var need := if cfg.bridgeReserve + 2 < ADDRESS_END then cfg.bridgeReserve + 2 else ADDRESS_END - 1;
    if addresses <= need {
      return Some(NoRoom);
    }
    if cfg.vniStart == 0 || cfg.vniEnd < cfg.vniStart || cfg.vniEnd >= Pow2(24) {
      return Some(BadVniRange);
    }
    if !IsPow2(cfg.serviceIps) {
      return Some(BadServiceIps);
    }
    e := None;
  }

  /** Start-up validation, growing the names and blocks seen so far. */
  method Validate(cfg: NetworkConfig) returns (e: Option<ConfigError>)
    requires WellTyped(cfg)
    ensures e.None? <==> Valid(cfg)
  {
    e := CheckSizes(cfg);
    if e.Some? { return; }
    if cfg.pools == [] {
      return Some(NoPools);
    }
    if !exists p <- cfg.pools :: !p.tree {
      return Some(NoLanPool);
    }
    var names: set<string> := {};
    var nets: seq<Cidr> := [];
    for i := 0 to |cfg.pools|
      invariant e.None? && forall j :: 0 <= j < i ==> PoolOk(cfg, j)
      invariant names == set j | 0 <= j < i :: cfg.pools[j].name
      invariant |nets| == i && forall j :: 0 <= j < i ==> nets[j] == cfg.pools[j].cidr
    {
      e := CheckPool(cfg, i, names, nets);
      if e.Some? { return; }
      names := names + {cfg.pools[i].name};
      nets := nets + [cfg.pools[i].cidr];
    }
  }

  method CheckPool(cfg: NetworkConfig, i: nat, names: set<string>, nets: seq<Cidr>) returns (e: Option<ConfigError>)
    requires WellTyped(cfg) && IsPow2(cfg.serviceIps) && i < |cfg.pools|
    requires names == set j | 0 <= j < i :: cfg.pools[j].name
    requires |nets| == i && forall j :: 0 <= j < i ==> nets[j] == cfg.pools[j].cidr
    ensures e.None? <==> PoolOk(cfg, i)
  {
    var pool := cfg.pools[i];
    assert pool in cfg.pools;
    if pool.name in names { return Some(DuplicateName); }
    if pool.name == "" { return Some(EmptyName); }
    if pool.cidr.len >= 31 { return Some(PoolTooNarrow); }
    OverlapIsNotDisjoint(cfg.supernet, pool.cidr);
    if Overlap(cfg.supernet, pool.cidr) { return Some(PoolOverlap); }
    for j := 0 to |nets|
      invariant forall k :: 0 <= k < j ==> Disjoint(pool.cidr, cfg.pools[k].cidr)
    {
      OverlapIsNotDisjoint(pool.cidr, nets[j]);
      if Overlap(pool.cidr, nets[j]) { return Some(PoolOverlap); }
    }
    BlockFits(cfg, pool.cidr);
    var service := 32 - TrailingZeros(cfg.serviceIps);
    if service < 32 && pool.cidr.len + 2 > service { return Some(BlockDoesNotFit); }
    e := None;
  }
}
