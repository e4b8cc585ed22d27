/**
 CIDR blocks in the sense of section 3.1 of RFC 4632. A block is its address family and
 its leading network bits, which is what a masked `netip.Prefix` holds; an address is a
 number below 2^width. The block relations compare leading bits, as `netip` does, and the
 lemmas at the end tie them to the addresses the blocks stand for.
 */
module Cidr {
  datatype Family = V4 | V6

  /** Address width in bits. */
  function Width(f: Family): nat {
    match f
    case V4 => 32
    case V6 => 128
  }

  function Pow2(n: nat): (r: nat)
    ensures r >= 1
  {
    if n == 0 then 1 else 2 * Pow2(n - 1)
  }

  datatype RawBlock = Block(family: Family, bits: seq<bool>) {
    /** Prefix length. */
    function Len(): nat {
      |bits|
    }

    /** Number of addresses. */
    function Size(): (n: nat)
      requires Len() <= Width(family)
      ensures n >= 1
    {
      Pow2(Width(family) - Len())
    }

    /** Network address. */
    function First(): nat
      requires Len() <= Width(family)
    {
      Number(bits) * Size()
    }

    /** Last address; the broadcast address of an IPv4 block. */
    function Last(): nat
      requires Len() <= Width(family)
    {
      First() + Size() - 1
    }
  }

  type Block = b: RawBlock | b.Len() <= Width(b.family) witness Block(V4, [])

  datatype Addr = Addr(family: Family, value: nat)

  /** The number a bit string stands for, most significant bit first. */
  function Number(bits: seq<bool>): nat {
    if bits == [] then 0
    else 2 * Number(bits[..|bits| - 1]) + (if bits[|bits| - 1] then 1 else 0)
  }

  /** `a` lies inside `b`: the leading bits of `a` are those of `b`. */
  predicate Within(a: Block, b: Block) {
    a.family == b.family && b.bits <= a.bits
  }

  predicate StrictlyWithin(a: Block, b: Block) {
    Within(a, b) && a != b
  }

  predicate Overlaps(a: Block, b: Block) {
    Within(a, b) || Within(b, a)
  }

  predicate HasAddr(b: Block, addr: nat) {
    b.First() <= addr <= b.Last()
  }

  function Half(b: Block, upper: bool): Block
    requires b.Len() < Width(b.family)
  {
    Block(b.family, b.bits + [upper])
  }

  /** The enclosing block that is one bit shorter. */
  function Enclosing(b: Block): Block
    requires b.Len() > 0
  {
    Block(b.family, b.bits[..b.Len() - 1])
  }

  lemma WithinTransitive(a: Block, b: Block, c: Block)
    ensures Within(a, b) && Within(b, c) ==> Within(a, c)
  {
    if Within(a, b) && Within(b, c) {
      assert a.bits[..c.Len()] == b.bits[..c.Len()];
    }
  }

  /** Blocks with a common sub-block are nested. */
  lemma SharedSubBlock(x: Block, b: Block, c: Block)
    ensures Within(x, b) && Within(x, c) ==> Overlaps(b, c)
  {
    if Within(x, b) && Within(x, c) {
      var n := if b.Len() <= c.Len() then b.Len() else c.Len();
      assert b.bits[..n] == x.bits[..n] == c.bits[..n];
    }
  }

  /** Whatever strictly contains a half contains the whole. */
  lemma AboveHalf(b: Block, upper: bool, c: Block)
    requires b.Len() < Width(b.family)
    ensures StrictlyWithin(Half(b, upper), c) ==> Within(b, c)
  {
    var h := Half(b, upper);
    if StrictlyWithin(h, c) {
      SubBlockInOneHalf(h, c);
      assert c.bits == h.bits[..c.Len()] == b.bits[..c.Len()];
    }
  }

  /** A proper sub-block lies in exactly the half its next bit names. */
  lemma SubBlockInOneHalf(x: Block, b: Block)
    requires StrictlyWithin(x, b)
    ensures b.Len() < x.Len()
    ensures Within(x, Half(b, x.bits[b.Len()]))
    ensures !Overlaps(x, Half(b, !x.bits[b.Len()]))
  {
    var n := b.Len();
    assert x.bits[..n] == b.bits;
    assert x.Len() == n ==> x.bits == b.bits;
    var near, far := Half(b, x.bits[n]), Half(b, !x.bits[n]);
    assert x.bits[..n + 1] == near.bits;
    assert far.bits[n] != x.bits[n];
  }

  lemma NumberAppend(bits: seq<bool>, bit: bool)
    ensures Number(bits + [bit]) == 2 * Number(bits) + (if bit then 1 else 0)
  {
    assert (bits + [bit])[..|bits|] == bits;
  }

  lemma Doubling(k: nat, half: nat)
    ensures 2 * k * half == k * (2 * half)
    ensures (2 * k + 1) * half == k * (2 * half) + half
  {
  }

  /** Splitting a block splits its addresses in the middle. */
  lemma HalvesSplitAddresses(b: Block)
    requires b.Len() < Width(b.family)
    ensures Half(b, false).First() == b.First()
    ensures Half(b, true).First() == b.First() + Half(b, false).Size()
    ensures Half(b, false).Size() == Half(b, true).Size()
    ensures b.Size() == 2 * Half(b, false).Size()
  {
    NumberAppend(b.bits, false);
    NumberAppend(b.bits, true);
    Doubling(Number(b.bits), Half(b, false).Size());
  }

  /** Sub-blocks hold a subset of the addresses. */
  lemma {:induction false} WithinImpliesAddresses(a: Block, b: Block)
    requires Within(a, b)
    ensures b.First() <= a.First() && a.Last() <= b.Last()
    decreases a.Len()
  {
    if a != b {
      SubBlockInOneHalf(a, b);
      var up := Enclosing(a);
      assert up.bits[..b.Len()] == a.bits[..b.Len()];
      WithinImpliesAddresses(up, b);
      HalvesSplitAddresses(up);
      assert Half(up, a.bits[a.Len() - 1]) == a;
    }
  }

  /** Two blocks that do not overlap part ways below a common block. */
  lemma {:induction false} Divergence(a: Block, b: Block) returns (common: Block, side: bool)
    requires a.family == b.family && !Overlaps(a, b)
    ensures common.Len() < Width(common.family)
    ensures Within(a, Half(common, side)) && Within(b, Half(common, !side))
    decreases a.Len()
  {
    var n := a.Len() - 1;
    if Overlaps(Enclosing(a), b) {
      assert b.bits <= a.bits[..n] ==> b.bits <= a.bits;
      common, side := Enclosing(a), a.bits[n];
      assert b.bits[..n] == a.bits[..n];
      assert Half(common, side) == a;
      var head := b.bits[..n + 1];
      assert head[n] == a.bits[n] ==> head == a.bits;
      assert head == Half(common, !side).bits;
    } else {
      common, side := Divergence(Enclosing(a), b);
      var h := Half(common, side).bits;
      assert a.bits[..|h|] == h;
    }
  }

  /** Blocks overlap, by leading bits, exactly when they share an address. */
  lemma OverlapsIffSharedAddress(a: Block, b: Block)
    requires a.family == b.family
    ensures Overlaps(a, b) <==> exists x: nat :: HasAddr(a, x) && HasAddr(b, x)
  {
    if Within(a, b) {
      WithinImpliesAddresses(a, b);
      assert HasAddr(a, a.First()) && HasAddr(b, a.First());
    } else if Within(b, a) {
      WithinImpliesAddresses(b, a);
      assert HasAddr(a, b.First()) && HasAddr(b, b.First());
    } else {
      var common, side := Divergence(a, b);
      WithinImpliesAddresses(a, Half(common, side));
      WithinImpliesAddresses(b, Half(common, !side));
      HalvesSplitAddresses(common);
    }
  }

  /** Containment of blocks is containment of their addresses. */
  lemma WithinIffAddresses(a: Block, b: Block)
    requires a.family == b.family
    ensures Within(a, b) <==> (b.First() <= a.First() && a.Last() <= b.Last())
  {
    if Within(a, b) {
      WithinImpliesAddresses(a, b);
    } else if Within(b, a) {
      assert b != a;
      SubBlockInOneHalf(b, a);
      WithinImpliesAddresses(b, Half(a, b.bits[a.Len()]));
      HalvesSplitAddresses(a);
    } else {
      OverlapsIffSharedAddress(a, b);
      assert !(HasAddr(a, a.First()) && HasAddr(b, a.First()));
    }
  }
}
