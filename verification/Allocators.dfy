/**
 What the address allocators answer.

 Each answer is said on the rows of the tables: which address it is, why no
 lower one would do, and exactly when there is none. In a proper run what is
 free in an allocator's own scope is free in the whole table, or held under the
 scope of a cluster that is not there.
 */
module Allocators {
  import opened Arith
  import opened Ipv4
  import opened Config
  import opened Tables
  import opened Networks
  import opened ServiceBlocks
  import opened Controller
  import opened Addresses

  /** An address nobody holds and no registered host uses. */
  ghost predicate Unclaimed(s: Tables, a: nat) {
    a !in s.ips && !HostHas(s, a)
  }

  /** What an allocator for `scope` skips: a host's address, or one held under the scope. */
  ghost predicate Skipped(s: Tables, scope: Scope, a: nat) {
    HostHas(s, a) || (a in s.ips && s.ips[a].scope == scope)
  }

  /** `a` is the lowest candidate that is not skipped. */
  ghost predicate FirstFree(s: Tables, scope: Scope, lo: nat, hi: nat, a: nat) {
    Candidate(lo, hi, a) && !Skipped(s, scope, a) && forall n: nat :: Candidate(lo, hi, n) && n < a ==> Skipped(s, scope, n)
  }

  lemma TakenIsSkipped(s: Tables, scope: Scope, a: nat)
    ensures a in Taken(s, scope) <==> Skipped(s, scope, a)
    ensures a in HostAddresses(s) <==> HostHas(s, a)
  {
  }

  /**
   The allocator reports Exhausted exactly when every candidate is skipped;
   otherwise it enters the lowest that is not, unless the key is in the way.
   */
  lemma AllocatesLowestIff(s: Tables, scope: Scope, lo: nat, hi: nat, o: Owner)
    ensures var (t, r) := AllocateFromRange(s, scope, lo, hi, o);
      && (r == Err(Exhausted) <==> forall n: nat :: Candidate(lo, hi, n) ==> Skipped(s, scope, n))
      && (forall a: nat :: r == Ok(a) <==> FirstFree(s, scope, lo, hi, a) && a !in s.ips)
      && (r == Err(Constraint) <==> exists a: nat :: FirstFree(s, scope, lo, hi, a) && a in s.ips)
      && t == (if r.Ok? then s.(ips := s.ips[r.value := Holding(scope, o)]) else s)
  {
    forall a ensures a in Taken(s, scope) <==> Skipped(s, scope, a) { TakenIsSkipped(s, scope, a); }
    var pick := LowestFree(Taken(s, scope), lo, hi);
    if pick.Some? {
      assert FirstFree(s, scope, lo, hi, pick.value);
      forall a | FirstFree(s, scope, lo, hi, a) ensures a == pick.value {
        assert Candidate(lo, hi, a) && Candidate(lo, hi, pick.value);
      }
    }
  }

  lemma VmRange(cfg: NetworkConfig, ratio: Ratio, tr: seq<Tables>, steps: seq<Step>, i: nat)
    requires Valid(cfg) && ratio.Valid() && ProperRun(cfg, ratio, tr, steps) && i < |steps|
    requires steps[i].VmIpAllocate? && steps[i].cluster in tr[i].clusters
    ensures var n := tr[i].clusters[steps[i].cluster].net;
      && n == steps[i].net && n.cidr.Valid() && n.cidr.Network() < n.bridgeStart
      && n.bridgeEnd < n.vmStart <= n.vmEnd < n.cidr.Broadcast()
  {
    var step := steps[i];
    assert Legal(cfg, tr, i, step);
    RowsPersist(cfg, ratio, tr, steps, step.at, i, step.cluster);
    assert Paired(cfg, tr[i]) by { RunKeepsPairs(cfg, ratio, tr, steps, i); }
    var k: nat :| IsPair(cfg, step.net, k);
    PairLayout(cfg, step.net, k);
  }

  /** The first free address of a cluster's VM range is nobody's, or held under the scope of a cluster that is not there. */
  lemma FirstVmAddress(cfg: NetworkConfig, ratio: Ratio, tr: seq<Tables>, steps: seq<Step>, i: nat, c: string, a: nat)
    requires Valid(cfg) && ratio.Valid() && ProperRun(cfg, ratio, tr, steps) && i < |tr| && c in tr[i].clusters
    requires !Skipped(tr[i], ClusterScope(c), a) && tr[i].clusters[c].net.vmStart <= a <= tr[i].clusters[c].net.vmEnd
    ensures a in tr[i].ips <==> HeldByDead(tr[i], a)
    ensures !tr[i].clusters[c].public ==> a != tr[i].clusters[c].endpoint
  {
    assert Paired(cfg, tr[i]) by { RunKeepsPairs(cfg, ratio, tr, steps, i); }
    ClustersStayProvisioned(cfg, ratio, tr, steps, i, c);
    ClusterInSupernet(cfg, tr[i], c, a);
    FreeInScopeIsFree(cfg, ratio, tr, steps, i, ClusterScope(c), a);
  }

  /**
   A VM address of a cluster that is there: in the VM range, so neither network,
   broadcast nor bridge; the lowest that is unclaimed there; not the cluster's
   private endpoint. The allocator reports Exhausted exactly when every address
   of the range is a host's or held in the cluster, and the table's key stops it
   exactly when the lowest that is neither is held under the scope of a cluster
   that is gone or not yet there.
   */
  lemma VmAddressIsClean(cfg: NetworkConfig, ratio: Ratio, tr: seq<Tables>, steps: seq<Step>, i: nat)
    requires Valid(cfg) && ratio.Valid() && ProperRun(cfg, ratio, tr, steps) && i < |steps|
    requires steps[i].VmIpAllocate? && steps[i].cluster in tr[i].clusters
    ensures var s, step, row, scope := tr[i], steps[i], tr[i].clusters[steps[i].cluster], ClusterScope(steps[i].cluster);
      var r := AllocateFromRange(s, scope, step.net.vmStart, step.net.vmEnd, OfVm(step.vm)).1;
      && row.net == step.net && row.net.cidr.Valid()
      && (r.Ok? ==>
            && row.net.bridgeEnd < row.net.vmStart <= r.value <= row.net.vmEnd < row.net.cidr.Broadcast()
            && row.net.cidr.Network() < row.net.bridgeStart
            && Unclaimed(s, r.value) && (!row.public ==> r.value != row.endpoint)
            && (forall n :: row.net.vmStart <= n < r.value ==> Skipped(s, scope, n))
            && Holds(tr[i + 1], r.value, Holding(scope, OfVm(step.vm))))
      && (r == Err(Exhausted) <==> forall n :: row.net.vmStart <= n <= row.net.vmEnd ==> Skipped(s, scope, n))
      && (r == Err(Constraint) <==>
            exists a: nat :: FirstFree(s, scope, row.net.vmStart, row.net.vmEnd, a) && HeldByDead(s, a))
      && (r.Ok? || r == Err(Exhausted) || r == Err(Constraint))
  {
    var s, step, c := tr[i], steps[i], steps[i].cluster;
    var lo, hi := step.net.vmStart, step.net.vmEnd;
    VmRange(cfg, ratio, tr, steps, i);
    AllocatesLowestIff(s, ClusterScope(c), lo, hi, OfVm(step.vm));
    forall a: nat | FirstFree(s, ClusterScope(c), lo, hi, a)
      ensures (a in s.ips <==> HeldByDead(s, a)) && (!s.clusters[c].public ==> a != s.clusters[c].endpoint)
    {
      FirstVmAddress(cfg, ratio, tr, steps, i, c, a);
    }
    assert tr[i + 1] == Apply(ratio, s, step);
    assert forall n: nat :: Candidate(lo, hi, n) <==> lo <= n <= hi;
  }

  lemma FirstPoolAddress(cfg: NetworkConfig, ratio: Ratio, tr: seq<Tables>, steps: seq<Step>, i: nat, p: Pool, a: nat)
    requires Valid(cfg) && ratio.Valid() && ProperRun(cfg, ratio, tr, steps) && i < |tr| && p in cfg.pools
    requires InPool(p, a) && !Skipped(tr[i], PoolScope(p.name), a)
    ensures Unclaimed(tr[i], a) && p.cidr.Network() < a < p.cidr.Broadcast()
  {
    PoolRange(p);
    FreeInScopeIsFree(cfg, ratio, tr, steps, i, PoolScope(p.name), a);
  }

  /** The same for a public endpoint taken from a configured pool, where the key never stops the allocator. */
  lemma VipIsClean(cfg: NetworkConfig, ratio: Ratio, tr: seq<Tables>, steps: seq<Step>, i: nat)
    requires Valid(cfg) && ratio.Valid() && ProperRun(cfg, ratio, tr, steps) && i < |steps| && steps[i].VipAllocate?
    ensures var s, p, scope := tr[i], steps[i].pool, PoolScope(steps[i].pool.name);
      var r := AllocateFromRange(s, scope, PoolLow(p.cidr), PoolHigh(p.cidr), OfCluster(steps[i].cluster)).1;
      && (r.Ok? ==>
            && p.cidr.Network() < r.value < p.cidr.Broadcast() && Unclaimed(s, r.value)
            && (forall n :: p.cidr.Network() < n < r.value ==> Skipped(s, scope, n))
            && Holds(tr[i + 1], r.value, Holding(scope, OfCluster(steps[i].cluster))))
      && (r == Err(Exhausted) <==> forall n :: p.cidr.Network() < n < p.cidr.Broadcast() ==> Skipped(s, scope, n))
      && (r.Ok? || r == Err(Exhausted))
  {
    var s, p, scope := tr[i], steps[i].pool, PoolScope(steps[i].pool.name);
    var lo, hi := PoolLow(p.cidr), PoolHigh(p.cidr);
    assert Legal(cfg, tr, i, steps[i]);
    PoolRange(p);
    AllocatesLowestIff(s, scope, lo, hi, OfCluster(steps[i].cluster));
    forall a: nat | FirstFree(s, scope, lo, hi, a) ensures Unclaimed(s, a) && p.cidr.Network() < a < p.cidr.Broadcast() {
      FirstPoolAddress(cfg, ratio, tr, steps, i, p, a);
    }
    assert tr[i + 1] == Apply(ratio, s, steps[i]);
    assert forall n: nat :: Candidate(lo, hi, n) <==> p.cidr.Network() < n < p.cidr.Broadcast();
  }

  /** A block of `count` addresses at `b` that an allocator for `scope` may take. */
  ghost predicate FreeBlock(s: Tables, scope: Scope, lo: nat, hi: nat, count: nat, b: nat)
    requires count > 0
  {
    b % count == 0 && lo <= b && b + count - 1 <= hi && forall a: nat :: b <= a < b + count ==> !Skipped(s, scope, a)
  }

  lemma FitsIsSuits(s: Tables, scope: Scope, lo: nat, hi: nat, count: nat, b: nat)
    requires count > 0
    ensures FreeBlock(s, scope, lo, hi, count, b) <==> Suits(Taken(s, scope), lo, hi, count, b)
  {
    AlignDownIsRemainder(b, count);
    forall a ensures a in Taken(s, scope) <==> Skipped(s, scope, a) { TakenIsSkipped(s, scope, a); }
  }

  /** A block is allocated exactly when one fits, and then the lowest, unless the key is in the way. */
  lemma {:induction false} AllocatesBlockIff(s: Tables, scope: Scope, lo: nat, hi: nat, o: Owner, count: nat)
    requires IsPow2(count) && count < ADDRESS_END && lo + count - 1 < ADDRESS_END && hi < ADDRESS_END
    ensures var (t, r) := AllocateBlock(s, scope, lo, hi, o, count);
      && (r == Err(Exhausted) <==> forall b: nat :: !FreeBlock(s, scope, lo, hi, count, b))
      && (r.Ok? ==>
            && FreeBlock(s, scope, lo, hi, count, r.value.addr) && count == Pow2(32 - r.value.len) && r.value.len <= 32
            && forall b: nat :: FreeBlock(s, scope, lo, hi, count, b) ==> r.value.addr <= b)
      && (r == Err(Constraint) ==>
            exists b: nat, a: nat :: FreeBlock(s, scope, lo, hi, count, b) && b <= a < b + count && a in s.ips)
      && (r.Ok? || r == Err(Exhausted) || r == Err(Constraint))
      && (r.Err? ==> t == s)
  {
    BlockIsLowest(Taken(s, scope), lo, hi, count);
    forall b: nat ensures FreeBlock(s, scope, lo, hi, count, b) <==> Suits(Taken(s, scope), lo, hi, count, b) {
      FitsIsSuits(s, scope, lo, hi, count, b);
    }
  }

  lemma WholeBlockEntered(s: Tables, scope: Scope, lo: nat, hi: nat, o: Owner, count: nat)
    requires count < ADDRESS_END
    ensures var (t, r) := AllocateBlock(s, scope, lo, hi, o, count);
      r.Ok? ==> forall a :: r.value.addr <= a < r.value.addr + count ==> Holds(t, a, Holding(scope, o))
  {
  }

  /**
   The answer to a request for `n` addresses of pool `p`: Malformed when `n` is no
   power of two; else the lowest aligned block with no address of the pool in
   use, all of it unclaimed before and held afterwards, and Exhausted exactly
   when there is none.
   */
  ghost predicate BlockAnswer(s: Tables, t: Tables, p: Pool, c: string, n: nat, r: Result<Cidr>)
    requires p.cidr.Valid() && p.cidr.len < 31
  {
    var scope := PoolScope(p.name);
    && (r.Ok? ==> forall a :: r.value.addr <= a < r.value.addr + n ==>
          p.cidr.Network() < a < p.cidr.Broadcast() && Unclaimed(s, a) && Holds(t, a, Holding(scope, OfCluster(c))))
    && (n > 0 ==> (r == Err(Exhausted) <==>
          IsPow2(n) && forall b: nat :: !FreeBlock(s, scope, PoolLow(p.cidr), PoolHigh(p.cidr), n, b)))
    && (n > 0 && r.Ok? ==>
          forall b: nat :: FreeBlock(s, scope, PoolLow(p.cidr), PoolHigh(p.cidr), n, b) ==> r.value.addr <= b)
    && (r == Err(Malformed) <==> !IsPow2(n)) && (r.Ok? || r == Err(Exhausted) || r == Err(Malformed))
  }

  lemma FreeBlockInPool(s: Tables, p: Pool, n: nat, b: nat, a: nat)
    requires p.cidr.Valid() && p.cidr.len < 31 && n > 0 && b <= a < b + n
    requires forall x: nat :: InPool(p, x) && !Skipped(s, PoolScope(p.name), x) ==> Unclaimed(s, x)
    requires FreeBlock(s, PoolScope(p.name), PoolLow(p.cidr), PoolHigh(p.cidr), n, b)
    ensures Unclaimed(s, a) && p.cidr.Network() < a < p.cidr.Broadcast()
  {
    assert InPool(p, a) && !Skipped(s, PoolScope(p.name), a);
  }

  lemma BlockIsAnswered(s: Tables, p: Pool, c: string, n: nat)
    requires p.cidr.Valid() && p.cidr.len < 31 && n < ADDRESS_END && PoolLow(p.cidr) + n - 1 < ADDRESS_END
    requires forall a: nat :: InPool(p, a) && !Skipped(s, PoolScope(p.name), a) ==> Unclaimed(s, a)
    ensures var (t, r) := AllocateBlock(s, PoolScope(p.name), PoolLow(p.cidr), PoolHigh(p.cidr), OfCluster(c), n);
      BlockAnswer(s, t, p, c, n, r)
  {
    var scope, lo, hi, o := PoolScope(p.name), PoolLow(p.cidr), PoolHigh(p.cidr), OfCluster(c);
    assert hi < ADDRESS_END by { PoolRange(p); }
    if IsPow2(n) {
      AllocatesBlockIff(s, scope, lo, hi, o, n);
      var r := AllocateBlock(s, scope, lo, hi, o, n).1;
      if r.Ok? {
        WholeBlockEntered(s, scope, lo, hi, o, n);
        forall a: nat | r.value.addr <= a < r.value.addr + n
          ensures Unclaimed(s, a) && p.cidr.Network() < a < p.cidr.Broadcast()
        {
          FreeBlockInPool(s, p, n, r.value.addr, a);
        }
      } else if r == Err(Constraint) {
        var b: nat, a: nat :| FreeBlock(s, scope, lo, hi, n, b) && b <= a < b + n && a in s.ips;
        FreeBlockInPool(s, p, n, b, a);
      }
    }
  }

  /** And for every address of a service block. */
  lemma BlockIsClean(cfg: NetworkConfig, ratio: Ratio, tr: seq<Tables>, steps: seq<Step>, i: nat)
    requires Valid(cfg) && ratio.Valid() && ProperRun(cfg, ratio, tr, steps) && i < |steps| && steps[i].BlockAllocate?
    ensures var s, p, c, n := tr[i], steps[i].pool, steps[i].cluster, steps[i].count;
      var r := AllocateBlock(s, PoolScope(p.name), PoolLow(p.cidr), PoolHigh(p.cidr), OfCluster(c), n).1;
      p.cidr.Valid() && p.cidr.len < 31 && BlockAnswer(s, tr[i + 1], p, c, n, r)
  {
    var s, p := tr[i], steps[i].pool;
    assert Legal(cfg, tr, i, steps[i]) && Proper(s, steps[i]);
    forall a: nat | InPool(p, a) && !Skipped(s, PoolScope(p.name), a) ensures Unclaimed(s, a) {
      FirstPoolAddress(cfg, ratio, tr, steps, i, p, a);
    }
    BlockIsAnswered(s, p, steps[i].cluster, steps[i].count);
    assert tr[i + 1] == Apply(ratio, s, steps[i]);
  }

  /** A private endpoint is reserved exactly when nobody holds it; whoever does is a cluster, never a pool. */
  lemma EndpointIsClean(cfg: NetworkConfig, ratio: Ratio, tr: seq<Tables>, steps: seq<Step>, i: nat)
    requires Valid(cfg) && ratio.Valid() && ProperRun(cfg, ratio, tr, steps) && i < |steps| && steps[i].EndpointReserve?
    ensures var a, own := PrivateEndpoint(steps[i].net), Holding(ClusterScope(steps[i].cluster), OfCluster(steps[i].cluster));
      && cfg.supernet.Contains(a) && steps[i].net.vmStart <= a == steps[i].net.vmEnd
      && (a !in tr[i].ips ==> Holds(tr[i + 1], a, own))
      && (a in tr[i].ips ==> tr[i + 1] == tr[i] && tr[i].ips[a].scope.ClusterScope?)
  {
    var a := PrivateEndpoint(steps[i].net);
    assert Legal(cfg, tr, i, steps[i]);
    NetworkInUse(cfg, ratio, tr, steps, i);
    if a in tr[i].ips {
      HeldAddressesAreInScope(cfg, ratio, tr, steps, i, a);
      ScopeBlock(cfg, ratio, tr, steps, i, tr[i].ips[a].scope, a);
    }
  }
}
