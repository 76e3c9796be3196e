/** CIDR blocks as prefixes of addresses (section 3.1 of RFC 4632). */
module Cidr {

  datatype Family = V4 | V6 {
    function Bits(): nat {
      if V4? then 32 else 128
    }
  }

  function Pow2(n: nat): (p: nat)
    ensures p > 0
  {
    if n == 0 then 1 else 2 * Pow2(n - 1)
  }

  /** A net.IP in canonical form: none, or a number of the family's width. An IPv4-mapped IPv6
      address is a V4 one, as To4 makes it. */
  datatype Address = NoAddress | Ip(family: Family, value: nat)

  predicate ValidAddress(a: Address) {
    a.Ip? ==> a.value < Pow2(a.family.Bits())
  }

  /** A parsed CIDR: ParseCIDR masks the network, so the bits after the prefix are zero. */
  datatype Block = Block(family: Family, network: nat, ones: nat) {
    predicate Valid() {
      && ones <= family.Bits() && network < Pow2(family.Bits())
      && network % Pow2(family.Bits() - ones) == 0
    }

    /** How many addresses: two to the number of bits that the prefix leaves free. */
    function Size(): nat
      requires Valid()
    {
      Pow2(family.Bits() - ones)
    }
  }

  type CIDR = b: Block | b.Valid() witness Block(V4, 0, 0)

  /** A net.IPNet. Contains treats a network written in IPv4-mapped form (::ffff:10.0.0.0/104) as
      the V4 block that its last 32 bits and its last 32 mask bits give, but its mask keeps 96 bits
      more. */
  datatype Net = Net(block: CIDR, mapped: bool) {
    /** Mask.Size: what the start-up sort compares. */
    function MaskSize(): nat {
      if mapped then block.ones + 96 else block.ones
    }
  }

  type Network = n: Net | (n.mapped ==> n.block.family.V4?) witness Net(Block(V4, 0, 0), false)

  function Quotient(x: nat, m: nat): nat
    requires m > 0
  {
    x / m
  }

  /** The first ones bits of an address of the family. */
  function Prefix(family: Family, value: nat, ones: nat): nat
    requires ones <= family.Bits()
  {
    Quotient(value, Pow2(family.Bits() - ones))
  }

  /** IPNet.Contains: same family, and the same bits under the mask. */
  predicate InBlock(b: Block, a: Address)
    requires b.Valid()
  {
    a.Ip? && a.family == b.family && Prefix(b.family, a.value, b.ones) == Prefix(b.family, b.network, b.ones)
  }

  // ---------- arithmetic of prefixes ----------

  lemma Doubled(p: nat, q: nat)
    ensures 2 * (p * q) == (2 * p) * q
  {
  }

  lemma {:induction false} Pow2Sum(a: nat, b: nat)
    ensures Pow2(a + b) == Pow2(a) * Pow2(b)
  {
    if a > 0 {
      Pow2Sum(a - 1, b);
      Doubled(Pow2(a - 1), Pow2(b));
    }
  }

  /** The quotient is the only number with a remainder in range. */
  lemma QuotientIs(x: nat, m: nat, q: nat)
    requires m > 0 && q * m <= x < q * m + m
    ensures x / m == q
  {
    var d, r := x / m, x % m;
    assert x == d * m + r;
    assert (d + 1) * m == d * m + m && (q + 1) * m == q * m + m;
    assert d < q ==> (d + 1) * m <= q * m;
    assert q < d ==> (q + 1) * m <= d * m;
  }

  lemma TwoDigits(z: nat, n: nat, s: nat, m: nat)
    ensures (z * n + s) * m == z * (m * n) + s * m
  {
    assert (z * n + s) * m == (z * n) * m + s * m;
    assert (z * n) * m == z * (n * m);
    assert n * m == m * n;
  }

  lemma SmallDigit(s: nat, n: nat, m: nat, r: nat)
    requires s < n && r < m
    ensures s * m + r < m * n
  {
    assert s * m <= (n - 1) * m;
    assert (n - 1) * m == n * m - m;
  }

  lemma DigitsBound(y: nat, r: nat, z: nat, s: nat, m: nat, n: nat)
    requires y == z * n + s && r < m && s < n
    ensures z * (m * n) <= y * m + r < z * (m * n) + m * n
  {
    TwoDigits(z, n, s, m);
    SmallDigit(s, n, m, r);
    assert s * m >= 0;
  }

  lemma DivideTwice(x: nat, m: nat, n: nat)
    requires m > 0 && n > 0
    ensures m * n > 0 && x / (m * n) == (x / m) / n
  {
    var y, r := x / m, x % m;
    var z, s := y / n, y % n;
    DigitsBound(y, r, z, s, m, n);
    QuotientIs(x, m * n, z);
  }

  /** A shorter prefix is a function of a longer one. */
  lemma ShorterPrefix(family: Family, v: nat, w: nat, short: nat, long: nat)
    requires short <= long <= family.Bits()
    requires Prefix(family, v, long) == Prefix(family, w, long)
    ensures Prefix(family, v, short) == Prefix(family, w, short)
  {
    var m, n := Pow2(family.Bits() - long), Pow2(long - short);
    Pow2Sum(family.Bits() - long, long - short);
    DivideTwice(v, m, n);
    DivideTwice(w, m, n);
  }

  lemma MaskedNetwork(b: Block)
    requires b.Valid()
    ensures b.network == Prefix(b.family, b.network, b.ones) * b.Size()
  {
    DivMod(b.network, b.Size());
  }

  lemma DivMod(x: nat, m: nat)
    requires m > 0
    ensures x == (x / m) * m + x % m && x % m < m
  {
  }

  lemma SameQuotientIff(x: nat, start: nat, m: nat)
    requires m > 0 && start % m == 0
    ensures x / m == start / m <==> start <= x < start + m
  {
    DivMod(start, m);
    DivMod(x, m);
    if start <= x < start + m {
      QuotientIs(x, m, start / m);
    }
  }

  /** The block is the interval of Size addresses from its network on. */
  lemma BlockIsInterval(b: Block, a: Address)
    requires b.Valid()
    ensures InBlock(b, a) <==> a.Ip? && a.family == b.family && b.network <= a.value < b.network + b.Size()
  {
    if a.Ip? && a.family == b.family {
      SameQuotientIff(a.value, b.network, b.Size());
    }
  }

  // ---------- reading a network ----------

  /** The first of the IPv4-mapped addresses, ::ffff:0.0.0.0. */
  const MAPPED := 0xFFFF_0000_0000

  lemma Multiple(q: nat, m: nat)
    requires m > 0
    ensures q * m >= 0 && (q * m) / m == q && (q * m) % m == 0
  {
    assert q * m >= 0;
    QuotientIs(q * m, m, q);
    DivMod(q * m, m);
  }

  /** The largest multiple of m up to x. */
  function Floor(x: nat, m: nat): nat
    requires m > 0
  {
    Multiple(x / m, m);
    (x / m) * m
  }

  lemma FloorIs(x: nat, m: nat)
    requires m > 0
    ensures Floor(x, m) / m == x / m && Floor(x, m) % m == 0 && Floor(x, m) <= x
  {
    Multiple(x / m, m);
    DivMod(x, m);
  }

  function Masked(value: nat, free: nat): nat {
    Floor(value, Pow2(free))
  }

  lemma MaskedPrefix(value: nat, free: nat)
    ensures Masked(value, free) / Pow2(free) == value / Pow2(free)
    ensures Masked(value, free) % Pow2(free) == 0 && Masked(value, free) <= value
  {
    FloorIs(value, Pow2(free));
  }

  lemma MaskedValid(family: Family, value: nat, ones: nat)
    requires value < Pow2(family.Bits()) && ones <= family.Bits()
    ensures Block(family, Masked(value, family.Bits() - ones), ones).Valid()
  {
    MaskedPrefix(value, family.Bits() - ones);
  }

  lemma InOwnBlock(family: Family, value: nat, ones: nat)
    requires value < Pow2(family.Bits()) && ones <= family.Bits()
    ensures var b := Block(family, Masked(value, family.Bits() - ones), ones);
            b.Valid() && InBlock(b, Ip(family, value))
  {
    MaskedValid(family, value, ones);
    MaskedPrefix(value, family.Bits() - ones);
  }

  /** The canonical form of an address as it is written. */
  function Canonical(family: Family, value: nat): Address {
    if family.V6? && MAPPED <= value < MAPPED + Pow2(32) then Ip(V4, value - MAPPED) else Ip(family, value)
  }

  /** net.ParseCIDR: the network of an address written in the family, with a prefix of n bits. */
  function ParseNetwork(family: Family, value: nat, n: nat): (net: Network)
    requires value < Pow2(family.Bits()) && n <= family.Bits()
    ensures net.MaskSize() == n
  {
    if family.V6? && MAPPED <= value < MAPPED + Pow2(32) && n >= 96 then
      MaskedValid(V4, value - MAPPED, n - 96);
      Net(Block(V4, Masked(value - MAPPED, 32 - (n - 96)), n - 96), true)
    else
      MaskedValid(family, value, n);
      Net(Block(family, Masked(value, family.Bits() - n), n), false)
  }

  /** A network contains the address it was written with, unless that is IPv4-mapped and the prefix
      shorter than the mapping. */
  lemma ParsedContainsIff(family: Family, value: nat, n: nat)
    requires value < Pow2(family.Bits()) && n <= family.Bits()
    ensures InBlock(ParseNetwork(family, value, n).block, Canonical(family, value)) <==>
            !(family.V6? && MAPPED <= value < MAPPED + Pow2(32) && n < 96)
  {
    var mapped := family.V6? && MAPPED <= value < MAPPED + Pow2(32);
    if mapped && n >= 96 {
      InOwnBlock(V4, value - MAPPED, n - 96);
    } else if !mapped {
      InOwnBlock(family, value, n);
    }
  }

  // ---------- nested or disjoint ----------

  predicate Meet(b: Block, c: Block, a: Address)
    requires b.Valid() && c.Valid()
  {
    InBlock(b, a) && InBlock(c, a)
  }

  ghost predicate Inside(b: Block, c: Block)
    requires b.Valid() && c.Valid()
  {
    forall a :: InBlock(b, a) ==> InBlock(c, a)
  }

  /** b is inside c and not the whole of it. */
  ghost predicate StrictlyInside(b: Block, c: Block)
    requires b.Valid() && c.Valid()
  {
    Inside(b, c) && !Inside(c, b)
  }

  lemma LongerIsInside(b: Block, c: Block, a: Address)
    requires b.Valid() && c.Valid() && Meet(b, c, a) && c.ones <= b.ones
    ensures Inside(b, c)
  {
    forall x | InBlock(b, x) ensures InBlock(c, x) {
      ShorterPrefix(b.family, x.value, a.value, c.ones, b.ones);
    }
  }

  /** Any two blocks are nested or disjoint. */
  lemma NestedOrDisjoint(b: Block, c: Block)
    requires b.Valid() && c.Valid()
    ensures Inside(b, c) || Inside(c, b) || forall a :: !Meet(b, c, a)
  {
    if a :| Meet(b, c, a) {
      if c.ones <= b.ones {
        LongerIsInside(b, c, a);
      } else {
        LongerIsInside(c, b, a);
      }
    }
  }

  lemma {:induction false} Pow2Grows(a: nat, b: nat)
    requires a < b
    ensures 2 * Pow2(a) <= Pow2(b)
  {
    if a + 1 < b {
      Pow2Grows(a, b - 1);
    }
  }

  lemma FirstAddress(b: Block)
    requires b.Valid()
    ensures InBlock(b, Ip(b.family, b.network)) && ValidAddress(Ip(b.family, b.network))
  {
  }

  /** Of two blocks that meet, the strictly inner one is the one with the longer prefix. */
  lemma StrictlyInsideIffLonger(b: Block, c: Block, a: Address)
    requires b.Valid() && c.Valid() && Meet(b, c, a)
    ensures StrictlyInside(b, c) <==> c.ones < b.ones
  {
    if c.ones < b.ones {
      LongerIsInside(b, c, a);
      Pow2Grows(b.family.Bits() - b.ones, b.family.Bits() - c.ones);
      var first, last := Ip(c.family, c.network), Ip(c.family, c.network + c.Size() - 1);
      BlockIsInterval(c, first);
      BlockIsInterval(c, last);
      BlockIsInterval(b, first);
      BlockIsInterval(b, last);
    } else {
      LongerIsInside(c, b, a);
    }
  }

  /** Two blocks of one length that meet are the same CIDR. */
  lemma EqualLengthEqualBlock(b: Block, c: Block, a: Address)
    requires b.Valid() && c.Valid() && Meet(b, c, a) && b.ones == c.ones
    ensures b == c
  {
    MaskedNetwork(b);
    MaskedNetwork(c);
  }
}
