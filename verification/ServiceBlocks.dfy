/**
 Service blocks: aligned power-of-two runs of addresses taken from a pool.

 The search starts at the first multiple of the block size in the range and
 steps block by block. Its first computation is a 32-bit addition that wraps,
 and that decides exactly when the answer can be trusted.
 */
module ServiceBlocks {
  import opened Arith
  import opened Ipv4
  import opened Naming
  import opened Tables

  /** Round `lo` up to a multiple of `count`, the addition wrapping at 2^32. */
  function AlignUp(lo: nat, count: nat): nat
    requires count > 0
  {
    AlignDown((lo + count - 1) % ADDRESS_END, count)
  }

  /** Clearing the low bits of a 32-bit sum: what masking with the complement of `count - 1` does. */
  lemma AlignUpClearsLowBits(lo: nat, count: nat)
    requires count > 0
    ensures var sum := (lo + count - 1) % ADDRESS_END; AlignUp(lo, count) == sum - sum % count
  {
    AlignDownIsRemainder((lo + count - 1) % ADDRESS_END, count);
  }

  predicate BlockFree(used: set<nat>, start: nat, count: nat) {
    forall n :: start <= n < start + count ==> n !in used
  }

  function FindBlock(used: set<nat>, start: nat, count: nat, hi: nat): Option<nat>
    requires count > 0
    decreases ADDRESS_END - start
  {
    if start + count - 1 >= ADDRESS_END || start + count - 1 > hi then None
    else if BlockFree(used, start, count) then Some(start)
    else if start + count >= ADDRESS_END then None
    else FindBlock(used, start + count, count, hi)
  }

  predicate AnyHeld(ips: map<nat, Holding>, start: nat, count: nat) {
    exists n :: start <= n < start + count && n in ips
  }

  /** All addresses of the block or none; an address held in another scope breaks the table's key. */
  function AllocateBlock(s: Tables, scope: Scope, lo: nat, hi: nat, o: Owner, count: nat): (Tables, Result<Cidr>)
    requires count < ADDRESS_END
  {
    if !IsPow2(count) then (s, Err(Malformed))
    else
      match FindBlock(Taken(s, scope), AlignUp(lo, count), count, hi)
      case None => (s, Err(Exhausted))
      case Some(b) =>
        if AnyHeld(s.ips, b, count) then (s, Err(Constraint))
        else (s.(ips := HoldAll(s.ips, b, count, Holding(scope, o))), Ok(Cidr(b, BlockLen(count))))
  }

  /** The prefix length of a block of `count` addresses. */
  function BlockLen(count: nat): (len: nat)
    requires IsPow2(count) && count < ADDRESS_END
    ensures 1 <= len <= 32 && count == Pow2(32 - len)
  {
    BlockLength(count);
    PowerOfTwo(count);
    32 - TrailingZeros(count)
  }

  lemma {:induction false} BlockLength(count: nat)
    requires IsPow2(count) && count < ADDRESS_END
    ensures TrailingZeros(count) < 32 && 2 * count <= ADDRESS_END
  {
    PowerOfTwo(count);
    Pow2Of32();
    Pow2Order(32, TrailingZeros(count));
    Pow2Monotone(TrailingZeros(count), 32);
  }

  // --- Soundness of the search ---

  /** A block the caller asked for: aligned, inside the range, meeting no used address. */
  ghost predicate Suits(used: set<nat>, lo: nat, hi: nat, count: nat, b: nat)
    requires count > 0
  {
    Aligned(b, count) && lo <= b && b + count - 1 <= hi && BlockFree(used, b, count)
  }

  lemma {:induction false} FindBlockFrom(used: set<nat>, start: nat, count: nat, hi: nat)
    requires count > 0 && Aligned(start, count) && hi < ADDRESS_END
    ensures var r := FindBlock(used, start, count, hi);
      && (r.Some? ==> Suits(used, start, hi, count, r.value) &&
                      forall a :: Suits(used, start, hi, count, a) ==> r.value <= a)
      && (r.None? ==> forall a :: !Suits(used, start, hi, count, a))
    decreases ADDRESS_END - start
  {
    if start + count - 1 >= ADDRESS_END || start + count - 1 > hi {
    } else if !BlockFree(used, start, count) {
      forall a | Suits(used, start, hi, count, a) ensures start + count <= a {
        if start < a { AlignedApart(start, a, count); }
      }
      if start + count < ADDRESS_END {
        AlignedShift(start, 1, count);
        FindBlockFrom(used, start + count, count, hi);
        forall a | Suits(used, start, hi, count, a) ensures Suits(used, start + count, hi, count, a) {
        }
      }
    }
  }

  /** Without wrap-around the search starts at the least multiple in the range. */
  lemma AlignUpIsLeast(lo: nat, count: nat)
    requires count > 0 && lo + count - 1 < ADDRESS_END
    ensures Aligned(AlignUp(lo, count), count) && lo <= AlignUp(lo, count)
    ensures forall a: nat :: Aligned(a, count) && lo <= a ==> AlignUp(lo, count) <= a
  {
    var first := AlignUp(lo, count);
    AlignedDown(lo + count - 1, count);
    forall a: nat | Aligned(a, count) && lo <= a ensures first <= a {
      if a < first { AlignedApart(a, first, count); }
    }
  }

  /** The lowest suitable block, or Exhausted exactly when there is none. */
  lemma {:induction false} BlockIsLowest(used: set<nat>, lo: nat, hi: nat, count: nat)
    requires count > 0 && lo + count - 1 < ADDRESS_END && hi < ADDRESS_END
    ensures var r := FindBlock(used, AlignUp(lo, count), count, hi);
      && (r.Some? ==> Suits(used, lo, hi, count, r.value) &&
                      forall a :: Suits(used, lo, hi, count, a) ==> r.value <= a)
      && (r.None? <==> forall a :: !Suits(used, lo, hi, count, a))
  {
    AlignUpIsLeast(lo, count);
    var first := AlignUp(lo, count);
    FindBlockFrom(used, first, count, hi);
    forall a: nat ensures Suits(used, lo, hi, count, a) <==> Suits(used, first, hi, count, a) {
    }
  }

  /** When the addition wraps, no block suits, and yet the search answers with addresses from zero on. */
  lemma {:induction false} WrappedSearch(lo: nat, hi: nat, count: nat)
    requires IsPow2(count) && count < ADDRESS_END && lo <= hi < ADDRESS_END
    requires lo + count - 1 >= ADDRESS_END
    ensures forall used: set<nat>, b: nat :: !Suits(used, lo, hi, count, b)
    ensures FindBlock({}, AlignUp(lo, count), count, hi) == Some(0)
  {
    BlockLength(count);
    assert (lo + count - 1) % ADDRESS_END == lo + count - 1 - ADDRESS_END < count;
    EndIsAligned(count);
    forall used: set<nat>, b: nat ensures !Suits(used, lo, hi, count, b) {
      if Aligned(b, count) && b < ADDRESS_END { AlignedApart(b, ADDRESS_END, count); }
    }
  }

  lemma {:induction false} EndIsAligned(count: nat)
    requires IsPow2(count) && count < ADDRESS_END
    ensures Aligned(ADDRESS_END, count)
  {
    Pow2Of32();
    SizesDivide(BlockLen(count), 0);
    AlignedTimes(Pow2(BlockLen(count)), count);
  }

  /** The answer suits the caller, whatever is in use, exactly when `lo + count - 1` fits 32 bits. */
  lemma SearchIsSoundIff(lo: nat, hi: nat, count: nat)
    requires IsPow2(count) && count < ADDRESS_END && lo <= hi < ADDRESS_END
    ensures (forall used: set<nat> :: FindBlock(used, AlignUp(lo, count), count, hi).Some? ==>
               Suits(used, lo, hi, count, FindBlock(used, AlignUp(lo, count), count, hi).value))
            <==> lo + count - 1 < ADDRESS_END
  {
    if lo + count - 1 < ADDRESS_END {
      forall used: set<nat> | FindBlock(used, AlignUp(lo, count), count, hi).Some?
        ensures Suits(used, lo, hi, count, FindBlock(used, AlignUp(lo, count), count, hi).value)
      {
        BlockIsLowest(used, lo, hi, count);
      }
    } else {
      WrappedSearch(lo, hi, count);
      var used: set<nat> := {};
      assert FindBlock(used, AlignUp(lo, count), count, hi) == Some(0);
      assert !Suits(used, lo, hi, count, 0);
    }
  }

  // --- How many blocks a pool serves ---

  /** The usable range of a pool: between its network and its broadcast address. */
  function PoolLow(pool: Cidr): nat
    requires pool.Valid()
  {
    pool.Network() + 1
  }

  function PoolHigh(pool: Cidr): nat
    requires pool.Valid() && pool.len < 31
  {
    Pow2Monotone(2, 32 - pool.len);
    pool.Broadcast() - 1
  }

  /** `pool` is `n` blocks of `count` addresses, each starting at a multiple of `count`. */
  ghost predicate Divided(pool: Cidr, count: nat, n: nat)
    requires pool.Valid()
  {
    count > 0 && n >= 2 && pool.Size() == Times(n, count) && Aligned(pool.Network(), count)
  }

  lemma PoolIsDivided(pool: Cidr, count: nat, len: nat)
    requires pool.Valid() && pool.len < len <= 32 && count == Pow2(32 - len)
    ensures Divided(pool, count, Pow2(len - pool.len))
  {
    Pow2Monotone(1, len - pool.len);
    SizesDivide(len, pool.len);
    BlockBounds(pool);
    CoarseIsFine(pool.Network(), len, pool.len);
  }

  /** The j-th block of a divided pool. */
  function Block(pool: Cidr, count: nat, j: nat): nat
    requires pool.Valid()
  {
    pool.Network() + Times(j, count)
  }

  /** The aligned blocks of the usable range are the pool's blocks but for the first and the last. */
  lemma UsableBlock(pool: Cidr, count: nat, n: nat, a: nat) returns (j: nat)
    requires pool.Valid() && pool.len < 31 && Divided(pool, count, n)
    requires Aligned(a, count) && PoolLow(pool) <= a && a + count - 1 <= PoolHigh(pool)
    ensures 1 <= j <= n - 2 && a == Block(pool, count, j)
  {
    j := AlignedDistance(pool.Network(), a, count);
    if j > n - 2 { TimesLe(n - 1, j, count); }
  }

  lemma BlockIsUsable(pool: Cidr, count: nat, n: nat, j: nat)
    requires pool.Valid() && pool.len < 31 && Divided(pool, count, n) && 1 <= j <= n - 2
    ensures var a := Block(pool, count, j);
      Aligned(a, count) && PoolLow(pool) <= a && a + count - 1 <= PoolHigh(pool)
  {
    AlignedShift(pool.Network(), j, count);
    TimesLe(1, j, count);
    TimesLt(j, n - 1, count);
  }

  /** The first `k` usable blocks of the pool are used, and nothing else of its range. */
  ghost predicate UsedUpTo(pool: Cidr, count: nat, k: nat, used: set<nat>)
    requires pool.Valid() && pool.len < 31
  {
    forall a :: PoolLow(pool) <= a <= PoolHigh(pool) ==>
      (a in used <==> Block(pool, count, 1) <= a < Block(pool, count, k + 1))
  }

  /** With the first `k` served, a suitable block is block `k + 1` or a later one. */
  lemma SuitsAfter(pool: Cidr, count: nat, n: nat, k: nat, used: set<nat>, a: nat)
    requires pool.Valid() && pool.len < 31 && Divided(pool, count, n) && UsedUpTo(pool, count, k, used)
    requires Suits(used, PoolLow(pool), PoolHigh(pool), count, a)
    ensures k + 1 <= n - 2 && Block(pool, count, k + 1) <= a
  {
    var j := UsableBlock(pool, count, n, a);
    assert a !in used;
    if j <= k {
      TimesLt(j, k + 1, count);
      TimesLe(1, j, count);
    }
    TimesLe(k + 1, j, count);
  }

  /** With the first `k` served, the search returns block `k + 1`, or nothing when that is the last one. */
  lemma PoolBounds(pool: Cidr, count: nat, n: nat)
    requires pool.Valid() && pool.len < 31 && Divided(pool, count, n)
    ensures PoolLow(pool) + count - 1 < ADDRESS_END && PoolHigh(pool) < ADDRESS_END
  {
    BlockBounds(pool);
    TimesLe(2, n, count);
  }

  lemma {:induction false} FoundBlock(used: set<nat>, lo: nat, hi: nat, count: nat, b: nat)
    requires count > 0 && lo + count - 1 < ADDRESS_END && hi < ADDRESS_END && Suits(used, lo, hi, count, b)
    requires forall a: nat :: Suits(used, lo, hi, count, a) ==> b <= a
    ensures FindBlock(used, AlignUp(lo, count), count, hi) == Some(b)
  {
    BlockIsLowest(used, lo, hi, count);
  }

  lemma {:induction false} NextBlock(pool: Cidr, count: nat, n: nat, k: nat, used: set<nat>)
    requires pool.Valid() && pool.len < 31 && Divided(pool, count, n) && UsedUpTo(pool, count, k, used)
    ensures FindBlock(used, AlignUp(PoolLow(pool), count), count, PoolHigh(pool))
         == if k + 1 <= n - 2 then Some(Block(pool, count, k + 1)) else None
  {
    var lo, hi := PoolLow(pool), PoolHigh(pool);
    PoolBounds(pool, count, n);
    forall a: nat | Suits(used, lo, hi, count, a) ensures k + 1 <= n - 2 && Block(pool, count, k + 1) <= a {
      SuitsAfter(pool, count, n, k, used, a);
    }
    if k + 1 <= n - 2 {
      BlockIsUsable(pool, count, n, k + 1);
      FoundBlock(used, lo, hi, count, Block(pool, count, k + 1));
    } else {
      BlockIsLowest(used, lo, hi, count);
    }
  }

  /** The answer to the request after `k` served ones, in a pool of `n` blocks. */
  function Answer(pool: Cidr, count: nat, n: nat, k: nat): Result<Cidr>
    requires pool.Valid() && IsPow2(count) && count < ADDRESS_END
  {
    if k + 1 <= n - 2 then Ok(Cidr(Block(pool, count, k + 1), BlockLen(count))) else Err(Exhausted)
  }

  /** Block requests by `who`, one after the other, on the same pool. */
  function ServeBlocks(s: Tables, scope: Scope, pool: Cidr, who: seq<string>, count: nat)
    : (Tables, seq<Result<Cidr>>)
    requires pool.Valid() && pool.len < 31 && count < ADDRESS_END
    decreases |who|
  {
    if who == [] then (s, [])
    else
      var (t, r) := AllocateBlock(s, scope, PoolLow(pool), PoolHigh(pool), OfCluster(who[0]), count);
      var (u, rs) := ServeBlocks(t, scope, pool, who[1..], count);
      (u, [r] + rs)
  }

  /** The pool's range holds the first `k` blocks under `scope` and nothing else, host addresses included. */
  ghost predicate ServedSoFar(s: Tables, scope: Scope, pool: Cidr, count: nat, k: nat)
    requires pool.Valid() && pool.len < 31
  {
    && UsedUpTo(pool, count, k, Taken(s, scope)) && UsedUpTo(pool, count, k, s.ips.Keys)
    && forall a :: PoolLow(pool) <= a <= PoolHigh(pool) ==> a !in HostAddresses(s)
  }

  lemma {:induction false} ServeOne(s: Tables, scope: Scope, pool: Cidr, count: nat, n: nat, k: nat, o: Owner)
    requires pool.Valid() && pool.len < 31 && IsPow2(count) && count < ADDRESS_END
    requires Divided(pool, count, n) && ServedSoFar(s, scope, pool, count, k)
    ensures var (t, r) := AllocateBlock(s, scope, PoolLow(pool), PoolHigh(pool), o, count);
      && r == Answer(pool, count, n, k)
      && ServedSoFar(t, scope, pool, count, Served(n, k))
  {
    NextBlock(pool, count, n, k, Taken(s, scope));
    if k + 1 <= n - 2 {
      BlockIsUsable(pool, count, n, k + 1);
      HoldNext(s, scope, pool, count, k, o);
    }
  }

  /** Entering block `k + 1` extends the served part of the range by one block. */
  lemma {:induction false} HoldNext(s: Tables, scope: Scope, pool: Cidr, count: nat, k: nat, o: Owner)
    requires pool.Valid() && pool.len < 31 && ServedSoFar(s, scope, pool, count, k)
    requires PoolLow(pool) <= Block(pool, count, k + 1) && Block(pool, count, k + 1) + count - 1 <= PoolHigh(pool)
    ensures var b := Block(pool, count, k + 1);
      && !AnyHeld(s.ips, b, count)
      && ServedSoFar(s.(ips := HoldAll(s.ips, b, count, Holding(scope, o))), scope, pool, count, k + 1)
  {
    var b, end := Block(pool, count, k + 1), Block(pool, count, k + 2);
    assert end == b + count;
    TimesLe(1, k + 1, count);
    var t := s.(ips := HoldAll(s.ips, b, count, Holding(scope, o)));
    assert HostAddresses(t) == HostAddresses(s);
    forall a: nat | PoolLow(pool) <= a <= PoolHigh(pool)
      ensures a in t.ips.Keys <==> Block(pool, count, 1) <= a < end
      ensures a in Taken(t, scope) <==> Block(pool, count, 1) <= a < end
    {
      assert a in HeldIn(s, scope) <==> a in Taken(s, scope);
      assert a in HeldIn(t, scope) <==> b <= a < end || a in HeldIn(s, scope);
    }
  }

  lemma {:induction false} HeadIsServed(s: Tables, scope: Scope, pool: Cidr, who: seq<string>, count: nat)
    requires pool.Valid() && pool.len < 31 && count < ADDRESS_END && who != []
    ensures var (t, r) := AllocateBlock(s, scope, PoolLow(pool), PoolHigh(pool), OfCluster(who[0]), count);
      ServeBlocks(s, scope, pool, who, count).1 == [r] + ServeBlocks(t, scope, pool, who[1..], count).1
  {
  }

  lemma {:induction false} OneAnswerEach(s: Tables, scope: Scope, pool: Cidr, who: seq<string>, count: nat)
    requires pool.Valid() && pool.len < 31 && count < ADDRESS_END
    ensures |ServeBlocks(s, scope, pool, who, count).1| == |who|
    decreases |who|
  {
    if who != [] {
      HeadIsServed(s, scope, pool, who, count);
      var t := AllocateBlock(s, scope, PoolLow(pool), PoolHigh(pool), OfCluster(who[0]), count).0;
      OneAnswerEach(t, scope, pool, who[1..], count);
    }
  }

  /** The tables on which request `i` is answered. */
  function TablesAt(s: Tables, scope: Scope, pool: Cidr, who: seq<string>, count: nat, i: nat): Tables
    requires pool.Valid() && pool.len < 31 && count < ADDRESS_END && i < |who|
    decreases i
  {
    if i == 0 then s
    else
      var t := AllocateBlock(s, scope, PoolLow(pool), PoolHigh(pool), OfCluster(who[0]), count).0;
      TablesAt(t, scope, pool, who[1..], count, i - 1)
  }

  lemma {:induction false} NthAnswer(s: Tables, scope: Scope, pool: Cidr, who: seq<string>, count: nat, i: nat)
    requires pool.Valid() && pool.len < 31 && count < ADDRESS_END && i < |who|
    ensures |ServeBlocks(s, scope, pool, who, count).1| == |who|
    ensures ServeBlocks(s, scope, pool, who, count).1[i] ==
      AllocateBlock(TablesAt(s, scope, pool, who, count, i), scope, PoolLow(pool), PoolHigh(pool), OfCluster(who[i]), count).1
    decreases i
  {
    OneAnswerEach(s, scope, pool, who, count);
    HeadIsServed(s, scope, pool, who, count);
    if i > 0 {
      var t, rest := AllocateBlock(s, scope, PoolLow(pool), PoolHigh(pool), OfCluster(who[0]), count).0, who[1..];
      NthAnswer(t, scope, pool, rest, count, i - 1);
      assert rest[i - 1] == who[i];
    }
  }

  /** How many blocks are served after one more request, and after `i` more. */
  function Served(n: nat, k: nat): nat { if k + 1 <= n - 2 then k + 1 else k }

  function ServedAfter(n: nat, k: nat, i: nat): (m: nat)
    ensures m == if k + i <= n - 2 || i == 0 then k + i else if k <= n - 2 then n - 2 else k
    decreases i
  {
    if i == 0 then k else ServedAfter(n, Served(n, k), i - 1)
  }

  lemma {:induction false} NthServed(s: Tables, scope: Scope, pool: Cidr, count: nat, n: nat, k: nat,
                                     who: seq<string>, i: nat)
    requires pool.Valid() && pool.len < 31 && IsPow2(count) && count < ADDRESS_END && i < |who|
    requires Divided(pool, count, n) && ServedSoFar(s, scope, pool, count, k)
    ensures ServedSoFar(TablesAt(s, scope, pool, who, count, i), scope, pool, count, ServedAfter(n, k, i))
    decreases i
  {
    if i > 0 {
      ServeOne(s, scope, pool, count, n, k, OfCluster(who[0]));
      var t := AllocateBlock(s, scope, PoolLow(pool), PoolHigh(pool), OfCluster(who[0]), count).0;
      NthServed(t, scope, pool, count, n, Served(n, k), who[1..], i - 1);
    }
  }

  /** With `k` blocks served, request `i` is answered as if it came after `k + i` of them. */
  lemma {:induction false} ServesAt(s: Tables, scope: Scope, pool: Cidr, count: nat, n: nat, k: nat,
                                    who: seq<string>, i: nat)
    requires pool.Valid() && pool.len < 31 && IsPow2(count) && count < ADDRESS_END && i < |who|
    requires Divided(pool, count, n) && ServedSoFar(s, scope, pool, count, k)
    ensures |ServeBlocks(s, scope, pool, who, count).1| == |who|
    ensures ServeBlocks(s, scope, pool, who, count).1[i] == Answer(pool, count, n, k + i)
  {
    NthAnswer(s, scope, pool, who, count, i);
    NthServed(s, scope, pool, count, n, k, who, i);
    ServeOne(TablesAt(s, scope, pool, who, count, i), scope, pool, count, n, ServedAfter(n, k, i), OfCluster(who[i]));
  }

  lemma NothingServedYet(s: Tables, scope: Scope, pool: Cidr, count: nat)
    requires pool.Valid() && pool.len < 31
    requires forall a :: PoolLow(pool) <= a <= PoolHigh(pool) ==> a !in s.ips && a !in HostAddresses(s)
    ensures ServedSoFar(s, scope, pool, count, 0)
  {
  }

  /**
   A /p pool with no address in use and no host address inside serves exactly
   2^(s-p) - 2 blocks of length s, in address order, and then reports
   Exhausted. Single addresses are the case s = 32.
   */
  lemma {:induction false} PoolServesExactly(s: Tables, scope: Scope, pool: Cidr, count: nat, who: seq<string>)
    requires pool.Valid() && pool.len < 31 && IsPow2(count) && count < ADDRESS_END
    requires pool.len < BlockLen(count)
    requires forall a :: PoolLow(pool) <= a <= PoolHigh(pool) ==> a !in s.ips && a !in HostAddresses(s)
    ensures var blocks := Pow2(BlockLen(count) - pool.len) - 2;
      var rs := ServeBlocks(s, scope, pool, who, count).1;
      |rs| == |who| && forall i :: 0 <= i < |who| ==>
        rs[i] == if i < blocks then Ok(Cidr(Block(pool, count, i + 1), BlockLen(count))) else Err(Exhausted)
  {
    var n := Pow2(BlockLen(count) - pool.len);
    PoolIsDivided(pool, count, BlockLen(count));
    NothingServedYet(s, scope, pool, count);
    var rs := ServeBlocks(s, scope, pool, who, count).1;
    assert who == [] ==> rs == [];
    forall i | 0 <= i < |who| ensures |rs| == |who| && rs[i] == Answer(pool, count, n, i) {
      ServesAt(s, scope, pool, count, n, 0, who, i);
    }
    assert |who| > 0 ==> rs[0] == Answer(pool, count, n, 0);
  }
}
