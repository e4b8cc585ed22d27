/**
 The part of an address set that is left once claimed blocks are taken out of a block.
 `Pieces` splits by recursive halving; the lemmas show that it lists, in address order,
 exactly the maximal blocks that no claim touches.
 */
module FreeSet {
  import opened Wrappers
  import opened Cidr

  predicate Untouched(b: Block, claims: set<Block>) {
    forall c | c in claims :: !Overlaps(b, c)
  }

  predicate Covered(b: Block, claims: set<Block>) {
    exists c | c in claims :: Within(b, c)
  }

  predicate Disjoint(claims: set<Block>) {
    forall c, d | c in claims && d in claims && c != d :: !Overlaps(c, d)
  }

  /** A block that is neither free nor covered has a claim strictly inside it. */
  lemma PartlyClaimed(b: Block, claims: set<Block>)
    requires !Untouched(b, claims) && !Covered(b, claims)
    ensures b.Len() < Width(b.family)
    ensures exists c | c in claims :: StrictlyWithin(c, b)
  {
    var c :| c in claims && Overlaps(b, c);
    SubBlockInOneHalf(c, b);
  }

  /** The free blocks of `b`, largest possible, in address order. */
  function Pieces(b: Block, claims: set<Block>): (r: seq<Block>)
    decreases Width(b.family) - b.Len()
  {
    if Untouched(b, claims) then [b]
    else if Covered(b, claims) then []
    else
      PartlyClaimed(b, claims);
      Pieces(Half(b, false), claims) + Pieces(Half(b, true), claims)
  }

  lemma UntouchedInherited(x: Block, b: Block, claims: set<Block>)
    requires Within(x, b) && Untouched(b, claims)
    ensures Untouched(x, claims)
  {
    forall c | c in claims
      ensures !Overlaps(x, c)
    {
      SharedSubBlock(x, b, c);
      WithinTransitive(c, x, b);
    }
  }

  /** A block is listed exactly when it is free and its enclosing block is not. */
  lemma {:induction false} PiecesAreMaximal(b: Block, claims: set<Block>, x: Block)
    ensures x in Pieces(b, claims)
       <==> && Within(x, b) && Untouched(x, claims)
            && (x == b || !Untouched(Enclosing(x), claims))
    decreases Width(b.family) - b.Len()
  {
    if Untouched(b, claims) {
      if StrictlyWithin(x, b) {
        SubBlockInOneHalf(x, b);
        assert Enclosing(x).bits[..b.Len()] == b.bits;
        UntouchedInherited(Enclosing(x), b, claims);
      }
    } else if Covered(b, claims) {
      var c :| c in claims && Within(b, c);
      if Within(x, b) {
        assert c.bits == b.bits[..c.Len()] == x.bits[..c.Len()];
      }
    } else {
      PartlyClaimed(b, claims);
      PiecesAreMaximal(Half(b, false), claims, x);
      PiecesAreMaximal(Half(b, true), claims, x);
      assert Enclosing(Half(b, false)) == b == Enclosing(Half(b, true));
      if x != b {
        SplitMembership(x, b);
      }
    }
  }

  /** Every free sub-block lies in a listed piece, and everything in a piece is free. */
  lemma {:induction false} FreeIffInPiece(b: Block, claims: set<Block>, x: Block)
    requires Within(x, b)
    ensures Untouched(x, claims) <==> exists p | p in Pieces(b, claims) :: Within(x, p)
    decreases Width(b.family) - b.Len()
  {
    if Untouched(b, claims) {
      UntouchedInherited(x, b, claims);
      assert b in Pieces(b, claims);
    } else if Covered(b, claims) {
      var c :| c in claims && Within(b, c);
      assert c.bits == b.bits[..c.Len()] == x.bits[..c.Len()];
    } else {
      PartlyClaimed(b, claims);
      if x == b {
        forall p | p in Pieces(b, claims)
          ensures !Within(x, p)
        {
          PiecesAreMaximal(b, claims, p);
          assert Within(b, p) ==> p == b;
        }
      } else {
        SubBlockInOneHalf(x, b);
        var u := x.bits[b.Len()];
        FreeIffInPiece(Half(b, u), claims, x);
        forall p | p in Pieces(Half(b, !u), claims)
          ensures !Within(x, p)
        {
          PiecesAreMaximal(Half(b, !u), claims, p);
          WithinTransitive(x, p, Half(b, !u));
        }
      }
    }
  }

  /** Pieces come in address order and do not share addresses. */
  lemma {:induction false} PiecesAscend(b: Block, claims: set<Block>)
    ensures forall i, j | 0 <= i < j < |Pieces(b, claims)| ::
              Pieces(b, claims)[i].Last() < Pieces(b, claims)[j].First()
    decreases Width(b.family) - b.Len()
  {
    if !Untouched(b, claims) && !Covered(b, claims) {
      PartlyClaimed(b, claims);
      var lo, hi := Pieces(Half(b, false), claims), Pieces(Half(b, true), claims);
      PiecesAscend(Half(b, false), claims);
      PiecesAscend(Half(b, true), claims);
      HalvesSplitAddresses(b);
      forall p | p in lo
        ensures p.Last() < Half(b, true).First()
      {
        PiecesAreMaximal(Half(b, false), claims, p);
        WithinImpliesAddresses(p, Half(b, false));
      }
      forall p | p in hi
        ensures Half(b, true).First() <= p.First()
      {
        PiecesAreMaximal(Half(b, true), claims, p);
        WithinImpliesAddresses(p, Half(b, true));
      }
    }
  }

  /** An address of the block is in a piece exactly when no claim holds it. */
  lemma {:induction false} FreeAddresses(b: Block, claims: set<Block>, addr: nat)
    requires HasAddr(b, addr)
    requires forall c | c in claims :: c.family == b.family
    ensures (exists p | p in Pieces(b, claims) :: HasAddr(p, addr))
       <==> (forall c | c in claims :: !HasAddr(c, addr))
    decreases Width(b.family) - b.Len()
  {
    if Untouched(b, claims) {
      assert b in Pieces(b, claims);
      forall c | c in claims
        ensures !HasAddr(c, addr)
      {
        OverlapsIffSharedAddress(b, c);
      }
    } else if Covered(b, claims) {
      var c :| c in claims && Within(b, c);
      WithinImpliesAddresses(b, c);
    } else {
      PartlyClaimed(b, claims);
      HalvesSplitAddresses(b);
      var u := Half(b, true).First() <= addr;
      FreeAddresses(Half(b, u), claims, addr);
      forall p | p in Pieces(Half(b, !u), claims)
        ensures !HasAddr(p, addr)
      {
        PiecesAreMaximal(Half(b, !u), claims, p);
        WithinImpliesAddresses(p, Half(b, !u));
      }
    }
  }

  // ---- Taking a free block of a given length

  predicate NoneAsLong(pieces: seq<Block>, b: Block, length: nat) {
    forall p | p in pieces && p.Len() <= length :: p.Len() < b.Len()
  }

  /**
   The hole `RemoveFreePrefix` takes a block from: the first of the longest prefixes that
   are still no longer than asked for.
   */
  function BestFit(pieces: seq<Block>, length: nat): (r: Option<Block>)
    ensures r.None? <==> forall p | p in pieces :: p.Len() > length
    ensures r.Some? ==> r.value in pieces && r.value.Len() <= length
    ensures r.Some? ==> forall p | p in pieces :: p.Len() <= length ==> p.Len() <= r.value.Len()
    ensures r.Some? ==> exists i | 0 <= i < |pieces| :: pieces[i] == r.value && NoneAsLong(pieces[..i], r.value, length)
  {
    if pieces == [] then None
    else
      var n := |pieces| - 1;
      var best := BestFit(pieces[..n], length);
      assert pieces == pieces[..n] + [pieces[n]];
      assert forall i | 0 <= i <= n :: pieces[..n][..i] == pieces[..i];
      if pieces[n].Len() > length then best
      else if best.None? || pieces[n].Len() > best.value.Len() then Some(pieces[n])
      else best
  }

  /** The lowest sub-block of the given length. */
  function Corner(b: Block, length: nat): (r: Block)
    requires b.Len() <= length <= Width(b.family)
    ensures Within(r, b) && r.Len() == length
  {
    Block(b.family, b.bits + seq(length - b.Len(), _ => false))
  }

  function TakeFree(b: Block, claims: set<Block>, length: nat): (r: Option<Block>)
    requires length <= Width(b.family)
  {
    var hole := BestFit(Pieces(b, claims), length);
    if hole.None? then None else
      PiecesAreMaximal(b, claims, hole.value);
      Some(Corner(hole.value, length))
  }

  /** A free block of the length is found exactly when one exists, and it is free. */
  lemma TakeFreeFindsOne(b: Block, claims: set<Block>, length: nat)
    requires length <= Width(b.family)
    ensures var r := TakeFree(b, claims, length);
            && (r.Some? <==> exists x: Block :: x.Len() == length && Within(x, b) && Untouched(x, claims))
            && (r.Some? ==> r.value.Len() == length && Within(r.value, b) && Untouched(r.value, claims))
  {
    var r := TakeFree(b, claims, length);
    if r.Some? {
      var hole := BestFit(Pieces(b, claims), length).value;
      PiecesAreMaximal(b, claims, hole);
      UntouchedInherited(r.value, hole, claims);
      assert r.value.bits[..b.Len()] == hole.bits[..b.Len()] == b.bits;
    } else {
      forall x: Block | x.Len() == length && Within(x, b)
        ensures !Untouched(x, claims)
      {
        FreeIffInPiece(b, claims, x);
      }
    }
  }

  /** No hole that is big enough is smaller than the one the block is taken from. */
  lemma TakeFreeLeavesLargerHoles(b: Block, claims: set<Block>, length: nat, other: Block)
    requires length <= Width(b.family) && TakeFree(b, claims, length).Some?
    requires other in Pieces(b, claims) && other.Len() <= length
    ensures exists hole | hole in Pieces(b, claims) ::
              Within(TakeFree(b, claims, length).value, hole) && other.Len() <= hole.Len()
  {
    var hole := BestFit(Pieces(b, claims), length).value;
    PiecesAreMaximal(b, claims, hole);
    assert Within(TakeFree(b, claims, length).value, hole);
  }

  /** A free block of `b` that is not inside a larger one. */
  predicate IsHole(b: Block, claims: set<Block>, h: Block) {
    Within(h, b) && Untouched(h, claims) && (h == b || !Untouched(Enclosing(h), claims))
  }

  lemma {:induction false} CornerIsFirst(b: Block, length: nat)
    requires b.Len() <= length <= Width(b.family)
    ensures Corner(b, length).First() == b.First()
    decreases length
  {
    if length == b.Len() {
      assert Corner(b, length) == b;
    } else {
      CornerIsFirst(b, length - 1);
      assert Corner(b, length) == Half(Corner(b, length - 1), false);
      HalvesSplitAddresses(Corner(b, length - 1));
    }
  }

  lemma HoleInsideHole(b: Block, claims: set<Block>, h: Block, k: Block)
    requires IsHole(b, claims, h) && Untouched(k, claims) && Within(k, b)
    ensures !StrictlyWithin(h, k)
  {
    if StrictlyWithin(h, k) {
      SubBlockInOneHalf(h, k);
      assert Enclosing(h).bits[..k.Len()] == k.bits;
      UntouchedInherited(Enclosing(h), k, claims);
    }
  }

  /** A block lies in at most one hole. */
  lemma OneHole(b: Block, claims: set<Block>, x: Block, h: Block, k: Block)
    requires IsHole(b, claims, h) && IsHole(b, claims, k) && Within(x, h) && Within(x, k)
    ensures h == k
  {
    SharedSubBlock(x, h, k);
    HoleInsideHole(b, claims, h, k);
    HoleInsideHole(b, claims, k, h);
  }

  /**
   Which free block is to be taken: the lowest one of the hole around it; and of all holes that
   are large enough, that one is the smallest, and the lowest among the smallest.
   */
  ghost predicate LowestFit(b: Block, claims: set<Block>, length: nat, x: Block) {
    && x.Len() == length && Within(x, b) && Untouched(x, claims)
    && forall hole, other | IsHole(b, claims, hole) && Within(x, hole) && IsHole(b, claims, other) ::
         other.Len() <= length ==> && x.First() == hole.First() && other.Len() <= hole.Len()
                                   && (other.Len() == hole.Len() ==> hole.First() <= other.First())
  }

  predicate Ascend(pieces: seq<Block>) {
    forall i, j | 0 <= i < j < |pieces| :: pieces[i].First() < pieces[j].First()
  }

  /** The first of the longest prefixes is the lowest one, where they come in address order. */
  lemma FirstOfLongest(pieces: seq<Block>, length: nat, best: Block, other: Block)
    requires BestFit(pieces, length) == Some(best) && Ascend(pieces) && other in pieces && other.Len() <= length
    ensures other.Len() <= best.Len() && (other.Len() == best.Len() ==> best.First() <= other.First())
  {
    var i :| 0 <= i < |pieces| && pieces[i] == best && NoneAsLong(pieces[..i], best, length);
    var j :| 0 <= j < |pieces| && pieces[j] == other;
    assert forall k | 0 <= k < i :: pieces[..i][k] == pieces[k];
  }

  lemma BestHole(b: Block, claims: set<Block>, length: nat, best: Block, other: Block)
    requires BestFit(Pieces(b, claims), length) == Some(best)
    requires IsHole(b, claims, other) && other.Len() <= length
    ensures other.Len() <= best.Len() && (other.Len() == best.Len() ==> best.First() <= other.First())
  {
    PiecesAreMaximal(b, claims, other);
    PiecesAscend(b, claims);
    FirstOfLongest(Pieces(b, claims), length, best, other);
  }

  lemma TakeFreeIsLowest(b: Block, claims: set<Block>, length: nat)
    requires length <= Width(b.family) && TakeFree(b, claims, length).Some?
    ensures LowestFit(b, claims, length, TakeFree(b, claims, length).value)
  {
    var x, best := TakeFree(b, claims, length).value, BestFit(Pieces(b, claims), length).value;
    TakeFreeFindsOne(b, claims, length);
    PiecesAreMaximal(b, claims, best);
    CornerIsFirst(best, length);
    forall hole, other | IsHole(b, claims, hole) && Within(x, hole) && IsHole(b, claims, other) && other.Len() <= length
      ensures && x.First() == hole.First() && other.Len() <= hole.Len()
              && (other.Len() == hole.Len() ==> hole.First() <= other.First())
    {
      OneHole(b, claims, x, best, hole);
      BestHole(b, claims, length, best, other);
    }
  }

  lemma HoleAround(b: Block, claims: set<Block>, x: Block) returns (hole: Block)
    requires Within(x, b) && Untouched(x, claims)
    ensures IsHole(b, claims, hole) && Within(x, hole) && hole.Len() <= x.Len()
  {
    FreeIffInPiece(b, claims, x);
    hole :| hole in Pieces(b, claims) && Within(x, hole);
    PiecesAreMaximal(b, claims, hole);
  }

  /** That leaves only one block to take. */
  lemma LowestFitIsUnique(b: Block, claims: set<Block>, length: nat, x: Block, y: Block)
    requires LowestFit(b, claims, length, x) && LowestFit(b, claims, length, y)
    ensures x == y
  {
    var h := HoleAround(b, claims, x);
    var k := HoleAround(b, claims, y);
    assert x.First() == h.First() && y.First() == k.First() && h.First() == k.First();
    WithinIffAddresses(x, y);
    WithinIffAddresses(y, x);
  }

  // ---- Counting

  ghost function TotalSize(s: set<Block>): nat {
    if s == {} then 0
    else
      var x :| x in s;
      x.Size() + TotalSize(s - {x})
  }

  lemma {:induction false} TotalSizeInsert(x: Block, s: set<Block>)
    requires x !in s
    ensures TotalSize(s + {x}) == x.Size() + TotalSize(s)
    decreases s
  {
    assert s + {x} != {};
    var y :| y in s + {x} && TotalSize(s + {x}) == y.Size() + TotalSize(s + {x} - {y});
    if y == x {
      assert s + {x} - {y} == s;
    } else {
      assert s + {x} - {y} == (s - {y}) + {x};
      TotalSizeInsert(x, s - {y});
      assert (s - {y}) + {y} == s;
      TotalSizeInsert(y, s - {y});
    }
  }

  lemma {:induction false} TotalSizeUnion(s: set<Block>, t: set<Block>)
    requires s !! t
    ensures TotalSize(s + t) == TotalSize(s) + TotalSize(t)
    decreases t
  {
    if t == {} {
      assert s + t == s;
    } else {
      var x :| x in t;
      TotalSizeUnion(s, t - {x});
      TotalSizeInsert(x, s + (t - {x}));
      TotalSizeInsert(x, t - {x});
      assert s + (t - {x}) + {x} == s + t && t - {x} + {x} == t;
    }
  }

  /** The sum of `weight` over a list of blocks. */
  ghost function Sum(pieces: seq<Block>, weight: Block -> nat): nat {
    if pieces == [] then 0 else weight(pieces[0]) + Sum(pieces[1..], weight)
  }

  lemma {:induction false} SumConcat(a: seq<Block>, b: seq<Block>, weight: Block -> nat)
    ensures Sum(a + b, weight) == Sum(a, weight) + Sum(b, weight)
  {
    if a == [] {
      assert a + b == b;
    } else {
      assert (a + b)[1..] == a[1..] + b;
      SumConcat(a[1..], b, weight);
    }
  }

  ghost function Addresses(pieces: seq<Block>): nat {
    Sum(pieces, (p: Block) => p.Size())
  }

  function Inside(b: Block, claims: set<Block>): set<Block> {
    set c | c in claims && Within(c, b)
  }

  /** Claimed addresses and free addresses add up to the block. */
  lemma {:induction false} AddressesConserved(b: Block, claims: set<Block>)
    requires Disjoint(claims)
    requires forall c | c in claims :: !StrictlyWithin(b, c)
    ensures Addresses(Pieces(b, claims)) + TotalSize(Inside(b, claims)) == b.Size()
    decreases Width(b.family) - b.Len()
  {
    var weight := (p: Block) => p.Size();
    if Untouched(b, claims) {
      assert Inside(b, claims) == {};
      assert Sum([b], weight) == weight(b) + Sum([], weight);
    } else if Covered(b, claims) {
      assert Inside(b, claims) == {b};
    } else {
      PartlyClaimed(b, claims);
      var lo, hi := Half(b, false), Half(b, true);
      forall u: bool
        ensures forall c | c in claims :: !StrictlyWithin(Half(b, u), c)
      {
        forall c | c in claims
          ensures !StrictlyWithin(Half(b, u), c)
        {
          AboveHalf(b, u, c);
        }
      }
      AddressesConserved(lo, claims);
      AddressesConserved(hi, claims);
      SumConcat(Pieces(lo, claims), Pieces(hi, claims), weight);
      HalvesSplitAddresses(b);
      InsideHalves(b, claims);
      TotalSizeUnion(Inside(lo, claims), Inside(hi, claims));
    }
  }

  lemma InsideHalves(b: Block, claims: set<Block>)
    requires b.Len() < Width(b.family) && b !in claims
    ensures Inside(b, claims) == Inside(Half(b, false), claims) + Inside(Half(b, true), claims)
    ensures Inside(Half(b, false), claims) !! Inside(Half(b, true), claims)
  {
    forall c | c in claims
      ensures Within(c, b) <==> Within(c, Half(b, false)) || Within(c, Half(b, true))
      ensures !(Within(c, Half(b, false)) && Within(c, Half(b, true)))
    {
      SplitMembership(c, b);
    }
  }

  /** Membership in a block, for anything but the block itself, is membership in one half. */
  lemma SplitMembership(x: Block, b: Block)
    requires b.Len() < Width(b.family) && x != b
    ensures Within(x, b) <==> Within(x, Half(b, false)) || Within(x, Half(b, true))
    ensures !(Within(x, Half(b, false)) && Within(x, Half(b, true)))
  {
    if Within(x, b) {
      SubBlockInOneHalf(x, b);
    }
    forall u: bool | Within(x, Half(b, u))
      ensures Within(x, b) && x.bits[b.Len()] == u
    {
      assert x.bits[..b.Len()] == Half(b, u).bits[..b.Len()] == b.bits;
      assert x.bits[b.Len()] == Half(b, u).bits[b.Len()];
    }
  }

  /** All sub-blocks of one length. */
  function Slots(b: Block, length: nat): (r: set<Block>)
    requires length <= Width(b.family)
    decreases Width(b.family) - b.Len()
  {
    if b.Len() > length then {}
    else if b.Len() == length then {b}
    else Slots(Half(b, false), length) + Slots(Half(b, true), length)
  }

  lemma {:induction false} SlotsExact(b: Block, length: nat, x: Block)
    requires length <= Width(b.family)
    ensures x in Slots(b, length) <==> Within(x, b) && x.Len() == length
    decreases Width(b.family) - b.Len()
  {
    if b.Len() < length {
      SlotsExact(Half(b, false), length, x);
      SlotsExact(Half(b, true), length, x);
      if x != b {
        SplitMembership(x, b);
      }
    } else if Within(x, b) && x.Len() == length == b.Len() {
      assert x.bits == b.bits;
    }
  }

  function FreeSlots(b: Block, length: nat, claims: set<Block>): set<Block>
    requires length <= Width(b.family)
  {
    set x | x in Slots(b, length) && Untouched(x, claims)
  }

  /** How many blocks of `length` bits one free piece holds. */
  function SlotsIn(p: Block, length: nat): nat {
    if p.Len() > length then 0 else Pow2(length - p.Len())
  }

  ghost function SlotTotal(pieces: seq<Block>, length: nat): nat {
    Sum(pieces, (p: Block) => SlotsIn(p, length))
  }

  lemma {:induction false} SlotsCount(b: Block, length: nat)
    requires length <= Width(b.family)
    ensures |Slots(b, length)| == SlotsIn(b, length)
    decreases Width(b.family) - b.Len()
  {
    if b.Len() < length {
      SlotsCount(Half(b, false), length);
      SlotsCount(Half(b, true), length);
      SlotsHalvesDisjoint(b, length);
      var lo, hi := Slots(Half(b, false), length), Slots(Half(b, true), length);
      assert |lo + hi| == |lo| + |hi|;
    }
  }

  lemma SlotsHalvesDisjoint(b: Block, length: nat)
    requires b.Len() < length <= Width(b.family)
    ensures Slots(Half(b, false), length) !! Slots(Half(b, true), length)
  {
    forall x | x in Slots(Half(b, false), length)
      ensures x !in Slots(Half(b, true), length)
    {
      SlotsExact(Half(b, false), length, x);
      SlotsExact(Half(b, true), length, x);
      SplitMembership(x, b);
    }
  }

  /** The piece-by-piece total is the number of wholly free blocks of that length. */
  lemma {:induction false} FreeSlotsCounted(b: Block, length: nat, claims: set<Block>)
    requires length <= Width(b.family)
    ensures |FreeSlots(b, length, claims)| == SlotTotal(Pieces(b, claims), length)
    decreases Width(b.family) - b.Len()
  {
    var weight := (p: Block) => SlotsIn(p, length);
    if Untouched(b, claims) {
      forall x | x in Slots(b, length)
        ensures Untouched(x, claims)
      {
        SlotsExact(b, length, x);
        UntouchedInherited(x, b, claims);
      }
      assert FreeSlots(b, length, claims) == Slots(b, length);
      SlotsCount(b, length);
      assert Sum([b], weight) == weight(b) + Sum([], weight);
    } else if Covered(b, claims) {
      forall x | x in Slots(b, length)
        ensures !Untouched(x, claims)
      {
        SlotsExact(b, length, x);
        FreeIffInPiece(b, claims, x);
      }
      assert FreeSlots(b, length, claims) == {};
    } else {
      PartlyClaimed(b, claims);
      var lo, hi := Half(b, false), Half(b, true);
      SumConcat(Pieces(lo, claims), Pieces(hi, claims), weight);
      FreeSlotsCounted(lo, length, claims);
      FreeSlotsCounted(hi, length, claims);
      var flo, fhi := FreeSlots(lo, length, claims), FreeSlots(hi, length, claims);
      if b.Len() < length {
        SlotsHalvesDisjoint(b, length);
        assert FreeSlots(b, length, claims) == flo + fhi;
        assert |flo + fhi| == |flo| + |fhi|;
      } else {
        assert FreeSlots(b, length, claims) == {} == flo == fhi;
      }
    }
  }
}
