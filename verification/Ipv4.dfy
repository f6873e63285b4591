/**
 IPv4 address blocks, as in section 3.1 of RFC 4632.

 Addresses are 32-bit numbers in host order. A block keeps the address it was
 written with; its network is that address with the host bits cleared.
 */
module Ipv4 {
  import opened Arith

  const ADDRESS_END := 0x1_0000_0000

  function Pow2(n: nat): (p: nat)
    ensures p >= 1
  {
    if n == 0 then 1 else 2 * Pow2(n - 1)
  }

  lemma {:induction false} Pow2Add(m: nat, n: nat)
    ensures Pow2(m + n) == Times(Pow2(m), Pow2(n))
  {
    if m > 0 {
      Pow2Add(m - 1, n);
      TimesAdd(Pow2(m - 1), Pow2(m - 1), Pow2(n));
      assert Pow2(m + n) == 2 * Pow2(m - 1 + n);
    } else {
      assert Times(1, Pow2(n)) == Pow2(n);
    }
  }

  lemma Pow2Of32()
    ensures Pow2(32) == ADDRESS_END
  {
    assert Pow2(8) == 256;
    assert Pow2(16) == 65536 by { Pow2Add(8, 8); TimesIsProduct(256, 256); }
    Pow2Add(16, 16);
    TimesIsProduct(65536, 65536);
  }

  predicate IsPow2(n: nat) {
    n > 0 && (n == 1 || (n % 2 == 0 && IsPow2(n / 2)))
  }

  function TrailingZeros(n: nat): nat {
    if n == 0 || n % 2 == 1 then 0 else 1 + TrailingZeros(n / 2)
  }

  lemma {:induction false} PowerOfTwo(n: nat)
    requires IsPow2(n)
    ensures n == Pow2(TrailingZeros(n))
  {
    if n > 1 {
      PowerOfTwo(n / 2);
    }
  }

  lemma {:induction false} Pow2Monotone(m: nat, n: nat)
    requires m <= n
    ensures Pow2(m) <= Pow2(n)
    ensures m < n ==> 2 * Pow2(m) <= Pow2(n)
  {
    if m < n { Pow2Monotone(m, n - 1); }
  }

  lemma {:induction false} Pow2Order(m: nat, n: nat)
    ensures Pow2(m) <= Pow2(n) <==> m <= n
  {
    if m <= n { Pow2Monotone(m, n); } else { Pow2Monotone(n, m); }
  }

  // --- Blocks ---

  datatype Cidr = Cidr(addr: nat, len: nat) {
    predicate Valid() { addr < ADDRESS_END && len <= 32 }

    function Size(): (n: nat)
      requires len <= 32
      ensures n >= 1
    {
      Pow2(32 - len)
    }

    function Network(): nat
      requires len <= 32
    {
      AlignDown(addr, Size())
    }

    function Broadcast(): nat
      requires len <= 32
    {
      Network() + Size() - 1
    }

    predicate Contains(a: nat)
      requires len <= 32
    {
      Network() <= a <= Broadcast()
    }
  }

  predicate Overlap(a: Cidr, b: Cidr)
    requires a.Valid() && b.Valid()
  {
    a.Contains(b.Network()) || b.Contains(a.Network())
  }

  lemma SizesDivide(long: nat, short: nat)
    requires short <= long <= 32
    ensures Pow2(32 - short) == Times(Pow2(long - short), Pow2(32 - long))
  {
    Pow2Add(long - short, 32 - long);
  }

  /** An address aligned to a block size is aligned to every smaller one. */
  lemma CoarseIsFine(x: nat, long: nat, short: nat)
    requires short <= long <= 32 && Aligned(x, Pow2(32 - short))
    ensures Aligned(x, Pow2(32 - long))
  {
    var d, D := Pow2(32 - long), Pow2(32 - short);
    SizesDivide(long, short);
    var q := Fits(x, D);
    TimesAssoc(q, Pow2(long - short), d);
    AlignedTimes(Times(q, Pow2(long - short)), d);
  }

  /** The block's network is in it and aligned, and blocks stay inside the address space. */
  lemma BlockBounds(c: Cidr)
    requires c.Valid()
    ensures c.Contains(c.addr) && c.Contains(c.Network()) && Aligned(c.Network(), c.Size())
    ensures c.Broadcast() < ADDRESS_END
  {
    AlignedDown(c.addr, c.Size());
    Pow2Of32();
    SizesDivide(c.len, 0);
    AlignedTimes(Pow2(c.len), c.Size());
    AlignedApart(c.Network(), ADDRESS_END, c.Size());
  }

  /** A common address of a wider and a narrower block puts the narrower one inside. */
  lemma WiderContains(a: Cidr, b: Cidr, x: nat)
    requires a.Valid() && b.Valid() && a.len <= b.len && a.Contains(x) && b.Contains(x)
    ensures a.Contains(b.Network()) && a.Contains(b.Broadcast())
  {
    var d := b.Size();
    BlockBounds(a);
    BlockBounds(b);
    CoarseIsFine(a.Network(), b.len, a.len);
    SizesDivide(b.len, a.len);
    AlignedShift(a.Network(), Pow2(b.len - a.len), d);
    if b.Network() < a.Network() { AlignedApart(b.Network(), a.Network(), d); }
    AlignedApart(b.Network(), a.Network() + a.Size(), d);
  }

  /** The containment test the code uses decides exactly whether two blocks share an address. */
  lemma OverlapIffShared(a: Cidr, b: Cidr)
    requires a.Valid() && b.Valid()
    ensures Overlap(a, b) <==> exists x :: a.Contains(x) && b.Contains(x)
  {
    BlockBounds(a);
    BlockBounds(b);
    if Overlap(a, b) {
      var x := if a.Contains(b.Network()) then b.Network() else a.Network();
      assert a.Contains(x) && b.Contains(x);
    }
    if x :| a.Contains(x) && b.Contains(x) {
      if a.len <= b.len { WiderContains(a, b, x); } else { WiderContains(b, a, x); }
    }
  }

  // --- Subnets ---

  /** The k-th block of length `len` inside `c`, counting from its network. */
  function Subnet(c: Cidr, len: nat, k: nat): Cidr
    requires c.len <= len <= 32
  {
    Cidr(c.Network() + Times(k, Pow2(32 - len)), len)
  }

  function SubnetCount(c: Cidr, len: nat): nat
    requires c.len <= len <= 32
  {
    Pow2(len - c.len)
  }

  lemma SubnetBlock(c: Cidr, len: nat, k: nat)
    requires c.Valid() && c.len <= len <= 32 && k < SubnetCount(c, len)
    ensures var b := Subnet(c, len, k);
      && b.Valid() && b.Network() == b.addr
      && c.Contains(b.Network()) && c.Contains(b.Broadcast())
  {
    var d := Pow2(32 - len);
    BlockBounds(c);
    CoarseIsFine(c.Network(), len, c.len);
    AlignedShift(c.Network(), k, d);
    SizesDivide(len, c.len);
    TimesLt(k, SubnetCount(c, len), d);
  }

  /** Different subnets of one block share no address; in particular they do not overlap. */
  lemma SubnetsDisjoint(c: Cidr, len: nat, j: nat, k: nat)
    requires c.Valid() && c.len <= len <= 32 && j < SubnetCount(c, len) && k < SubnetCount(c, len)
    ensures Subnet(c, len, j).Valid() && Subnet(c, len, k).Valid()
    ensures Overlap(Subnet(c, len, j), Subnet(c, len, k)) <==> j == k
  {
    var a, b, d := Subnet(c, len, j), Subnet(c, len, k), Pow2(32 - len);
    assert a.Valid() && a.Network() == a.addr by { SubnetBlock(c, len, j); }
    assert b.Valid() && b.Network() == b.addr by { SubnetBlock(c, len, k); }
    assert a.Broadcast() == a.addr + d - 1 && b.Broadcast() == b.addr + d - 1;
    if j < k { TimesLt(j, k, d); } else if k < j { TimesLt(k, j, d); }
  }
}
