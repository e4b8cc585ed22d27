/**
 What the allocator reports about itself: the number of subnets below a prefix, and how
 much of a prefix is still free.
 */
module Usage {
  import opened Wrappers
  import opened Cidr
  import opened FreeSet
  import opened Prefixes
  import opened Clients
  import opened Forest
  import opened Storage
  import opened Ipamer

  // ---- GetSubnetCount

  /** The claims of the stored claims of `p`. */
  function Below(store: Store, p: Block): set<Block>
    requires p in store
  {
    set c, d | c in Claims(store[p]) && c in store && d in Claims(store[c]) :: d
  }

  /** Distinct claims of one prefix have no claims of their own in common. */
  lemma ClaimsBelowAreDisjoint(store: Store, p: Block, c: Block, c': Block, d: Block)
    requires Filed(store) && p in store && c in Claims(store[p]) && c' in Claims(store[p])
    requires c in store && c' in store && d in Claims(store[c]) && d in Claims(store[c'])
    ensures c == c'
  {
    SharedSubBlock(d, c, c');
  }

  /** The claims of those blocks in `done` that are stored. */
  function ClaimsOf(store: Store, done: set<Block>): set<Block> {
    set c, d | c in done && c in store && d in Claims(store[c]) :: d
  }

  lemma ClaimsOfAreNew(store: Store, p: Block, done: set<Block>, c: Block)
    requires Filed(store) && p in store && done <= Claims(store[p]) && c in Claims(store[p]) && c !in done && c in store
    ensures ClaimsOf(store, done) !! Claims(store[c])
  {
    forall d, c' | d in Claims(store[c]) && c' in done && c' in store && d in Claims(store[c'])
      ensures c' == c
    {
      ClaimsBelowAreDisjoint(store, p, c', c, d);
    }
  }

  /** Counting one more child adds the number of its claims. */
  lemma ClaimsOfOneMore(store: Store, p: Block, done: set<Block>, c: Block)
    requires Filed(store) && p in store && done <= Claims(store[p]) && c in Claims(store[p]) && c !in done
    ensures |ClaimsOf(store, done + {c})| == |ClaimsOf(store, done)| + (if c in store then |Claims(store[c])| else 0)
  {
    ClaimsOfUnion(store, done, c);
    if c in store {
      ClaimsOfAreNew(store, p, done, c);
    }
  }

  lemma ClaimsOfUnion(store: Store, done: set<Block>, c: Block)
    ensures ClaimsOf(store, done + {c}) == ClaimsOf(store, done) + (if c in store then Claims(store[c]) else {})
  {
  }

  /** The loop over the children of an IP block. */
  method CountGrandchildren(ipamer: Ipamer, cidr: Block, prefix: Prefix, ghost store: Store) returns (count: nat)
    requires store == View(ipamer.storage.prefixes, ipamer.namespace) && Filed(store)
    requires cidr in store && store[cidr] == prefix
    ensures count == |Below(store, cidr)|
  {
    count := 0;
    ghost var done: set<Block> := {};
    var left := prefix.children.Keys;
    while left != {}
      invariant left <= prefix.children.Keys && done <= Claims(prefix) && left !! done
      invariant Claims(prefix) <= left + done
      invariant count == |ClaimsOf(store, done)|
      decreases left
    {
      var cp :| cp in left;
      left := left - {cp};
      if !prefix.children[cp] {
        var acquired := AcquiredPrefixes(ipamer, cp, store);
        ClaimsOfOneMore(store, cidr, done, cp);
        count := count + acquired;
        done := done + {cp};
      }
    }
    assert done == Claims(prefix);
    assert ClaimsOf(store, done) == Below(store, cidr);
  }

  /** The number of claims of a stored prefix; zero if it is not there. */
  method AcquiredPrefixes(ipamer: Ipamer, cidr: Block, ghost store: Store) returns (count: nat)
    requires store == View(ipamer.storage.prefixes, ipamer.namespace)
    ensures count == if cidr in store then |Claims(store[cidr])| else 0
  {
    var read := ipamer.storage.ReadPrefix(cidr, ipamer.namespace);
    if read.Err? {
      return 0;
    }
    count := CountClaims(read.value.children);
  }

  method GetSubnetCount(ipamer: Ipamer, cidr: Block) returns (count: nat)
    requires Filed(View(ipamer.storage.prefixes, ipamer.namespace))
    ensures count == SubnetCount(View(ipamer.storage.prefixes, ipamer.namespace), cidr)
    ensures cidr !in View(ipamer.storage.prefixes, ipamer.namespace) ==> count == 0
  {
    var read := ipamer.storage.ReadPrefix(cidr, ipamer.namespace);
    if read.Err? {
      return 0;
    }
    var prefix := read.value;
    if prefix.isParent && prefix.parent.None? {
      count := CountGrandchildren(ipamer, cidr, prefix, View(ipamer.storage.prefixes, ipamer.namespace));
      return;
    }
    if prefix.isParent && prefix.parent.Some? {
      count := CountClaims(prefix.children);
      return;
    }
    if !prefix.isParent && prefix.parent.Some? {
      var parent := ipamer.storage.ReadPrefix(prefix.parent.value, ipamer.namespace);
      if parent.Ok? && parent.value.parent.Some? {
        return 1;
      }
    }
    return 0;
  }

  /** What GetSubnetCount answers: it tells blocks, allocations and subnets apart by depth. */
  function SubnetCount(store: Store, cidr: Block): nat {
    if cidr !in store then 0
    else
      var p := store[cidr];
      if p.isParent then (if p.parent.None? then |Below(store, cidr)| else |Claims(p)|)
      else if p.parent.Some? && p.parent.value in store && store[p.parent.value].parent.Some? then 1
      else 0
  }

  function StoredChildren(store: Store, q: Block): set<Block> {
    set k | k in store && store[k].parent == Some(q)
  }

  function StoredGrandchildren(store: Store, q: Block): set<Block> {
    set k | k in store && store[k].parent.Some? && store[k].parent.value in StoredChildren(store, q)
  }

  /** In a forest the count agrees with the store: grandchildren of a root, children of an allocation. */
  lemma SubnetCountAgrees(store: Store, cidr: Block)
    requires IsForest(store) && cidr in store
    ensures IsRoot(store, cidr) ==> SubnetCount(store, cidr) == |StoredGrandchildren(store, cidr)|
    ensures !IsRoot(store, cidr) && IsRoot(store, ParentOf(store, cidr)) ==>
              SubnetCount(store, cidr) == |StoredChildren(store, cidr)|
    ensures !IsRoot(store, cidr) && !IsRoot(store, ParentOf(store, cidr)) ==>
              SubnetCount(store, cidr) == if store[cidr].isParent then |StoredChildren(store, cidr)| else 1
  {
    var p := store[cidr];
    assert StoredChildren(store, cidr) == Claims(p) by {
      forall k | k in StoredChildren(store, cidr)
        ensures k in Claims(p)
      {
        assert k in Claims(store[store[k].parent.value]);
      }
    }
    if IsRoot(store, cidr) {
      assert StoredGrandchildren(store, cidr) == Below(store, cidr) by {
        forall k | k in StoredGrandchildren(store, cidr)
          ensures k in Below(store, cidr)
        {
          assert k in Claims(store[store[k].parent.value]);
        }
      }
    }
  }

  // ---- availablePrefixes

  const U64: nat := 0x1_0000_0000_0000_0000
  const MAX_INT32: nat := 0x7FFF_FFFF

  /** Unsigned 64-bit arithmetic keeps the low word. */
  function Wrap(n: nat): nat {
    n % U64
  }

  /** Go's `1 << bits` on a uint64: shifting out of the word gives zero. */
  function ShiftLeft1(bits: nat): nat {
    if bits < 64 then Pow2(bits) else 0
  }

  function Capped(total: nat): nat {
    if total > MAX_INT32 then MAX_INT32 else total
  }

  function Usable(pieces: seq<Block>, maxBits: nat): seq<Block> {
    if pieces == [] then []
    else
      var n := |pieces| - 1;
      Usable(pieces[..n], maxBits) + (if pieces[n].Len() > maxBits then [] else [pieces[n]])
  }

  lemma {:induction false} Pow2Add(m: nat, n: nat)
    ensures Pow2(m + n) == Pow2(m) * Pow2(n)
  {
    if m > 0 {
      Pow2Add(m - 1, n);
    }
  }

  lemma Pow2Values()
    ensures Pow2(30) == 0x4000_0000 && Pow2(64) == U64
  {
    assert Pow2(2) == 4;
    Pow2Add(2, 2);
    Pow2Add(4, 4);
    Pow2Add(8, 8);
    Pow2Add(16, 8);
    Pow2Add(24, 4);
    Pow2Add(28, 2);
    Pow2Add(16, 16);
    Pow2Add(32, 32);
  }

  lemma MultipleOfU64(k: nat)
    ensures (U64 * k) % U64 == 0
    ensures k >= 1 ==> U64 * k >= U64
  {
  }

  lemma ShiftIsModulo(bits: nat)
    ensures Wrap(ShiftLeft1(bits)) == Wrap(Pow2(bits))
    ensures bits >= 64 ==> Wrap(Pow2(bits)) == 0 && Pow2(bits) >= U64
  {
    if bits >= 64 {
      Pow2Values();
      Pow2Add(64, bits - 64);
      MultipleOfU64(Pow2(bits - 64));
    }
  }

  lemma AddModulo(a: nat, b: nat, b': nat)
    requires Wrap(b) == Wrap(b')
    ensures Wrap(Wrap(a) + b) == Wrap(a + b')
  {
  }

  lemma SlotTotalAppend(pieces: seq<Block>, b: Block, length: nat)
    ensures SlotTotal(pieces + [b], length) == SlotTotal(pieces, length) + SlotsIn(b, length)
  {
    var weight := (p: Block) => SlotsIn(p, length);
    SumConcat(pieces, [b], weight);
    assert Sum([b], weight) == weight(b) + Sum([], weight);
  }

  /** One turn of the loop over the pieces. */
  lemma CountStep(pieces: seq<Block>, i: nat, maxBits: nat)
    requires i < |pieces|
    ensures var b := pieces[i];
            && Usable(pieces[..i + 1], maxBits) == Usable(pieces[..i], maxBits)
              + (if b.Len() > maxBits then [] else [b])
            && Wrap(SlotTotal(pieces[..i + 1], maxBits)) ==
                 if b.Len() > maxBits then Wrap(SlotTotal(pieces[..i], maxBits))
                 else Wrap(Wrap(SlotTotal(pieces[..i], maxBits)) + ShiftLeft1(maxBits - b.Len()))
  {
    var b := pieces[i];
    assert pieces[..i + 1] == pieces[..i] + [b] && pieces[..i + 1][..i] == pieces[..i];
    SlotTotalAppend(pieces[..i], b, maxBits);
    if b.Len() <= maxBits {
      ShiftIsModulo(maxBits - b.Len());
      AddModulo(SlotTotal(pieces[..i], maxBits), ShiftLeft1(maxBits - b.Len()), Pow2(maxBits - b.Len()));
    }
  }

  /** The loop over the free pieces. */
  method CountPieces(pieces: seq<Block>, maxBits: nat) returns (total: nat, usable: seq<Block>)
    ensures total == Wrap(SlotTotal(pieces, maxBits))
    ensures usable == Usable(pieces, maxBits)
  {
    total := 0;
    usable := [];
    for i := 0 to |pieces|
      invariant total == Wrap(SlotTotal(pieces[..i], maxBits))
      invariant usable == Usable(pieces[..i], maxBits)
    {
      CountStep(pieces, i, maxBits);
      if pieces[i].Len() <= maxBits {
        total := Wrap(total + ShiftLeft1(maxBits - pieces[i].Len()));
        usable := usable + [pieces[i]];
      }
    }
    assert pieces[..|pieces|] == pieces;
  }

  lemma {:induction false} UsableMembers(pieces: seq<Block>, maxBits: nat, x: Block)
    ensures x in Usable(pieces, maxBits) <==> x in pieces && x.Len() <= maxBits
  {
    if pieces != [] {
      var n := |pieces| - 1;
      UsableMembers(pieces[..n], maxBits, x);
      assert pieces == pieces[..n] + [pieces[n]];
    }
  }

  lemma {:induction false} UsableAscends(pieces: seq<Block>, maxBits: nat)
    requires Ascend(pieces)
    ensures Ascend(Usable(pieces, maxBits))
  {
    if pieces != [] {
      var n := |pieces| - 1;
      var front := Usable(pieces[..n], maxBits);
      UsableAscends(pieces[..n], maxBits);
      forall i | 0 <= i < |front|
        ensures front[i].First() < pieces[n].First()
      {
        UsableMembers(pieces[..n], maxBits, front[i]);
        var j :| 0 <= j < n && pieces[j] == front[i];
      }
    }
  }

  /** The prefixes reported free are the maximal free blocks that are not too small, in address order. */
  lemma AvailableAre(p: Prefix, x: Block)
    ensures x in Usable(Pieces(p.cidr, Claims(p)), Width(p.cidr.family) - 2) <==>
              IsHole(p.cidr, Claims(p), x) && x.Len() <= Width(p.cidr.family) - 2
  {
    UsableMembers(Pieces(p.cidr, Claims(p)), Width(p.cidr.family) - 2, x);
    PiecesAreMaximal(p.cidr, Claims(p), x);
  }

  lemma AvailableAscend(p: Prefix)
    ensures Ascend(Usable(Pieces(p.cidr, Claims(p)), Width(p.cidr.family) - 2))
  {
    PiecesAscend(p.cidr, Claims(p));
    UsableAscends(Pieces(p.cidr, Claims(p)), Width(p.cidr.family) - 2);
  }

  /** The number of wholly free blocks of the smallest usable size. */
  function FreeSmallest(p: Prefix): nat {
    |FreeSlots(p.cidr, Width(p.cidr.family) - 2, Claims(p))|
  }

  /** The smallest-prefix count and the list of free prefixes a Usage reports. */
  method AvailablePrefixes(p: Prefix) returns (count: nat, available: seq<Block>)
    ensures count == Capped(Wrap(FreeSmallest(p)))
    ensures available == Usable(Pieces(p.cidr, Claims(p)), Width(p.cidr.family) - 2)
    ensures var low := FreeSmallest(p) % 0x1_0000_0000_0000_0000;
            count == if low > 2147483647 then 2147483647 else low
    ensures Ascend(available) && forall x :: x in available <==>
              IsHole(p.cidr, Claims(p), x) && x.Len() <= if p.cidr.family.V4? then 30 else 126
  {
    var claims := CollectClaims(p.children);
    var maxBits := Width(p.cidr.family) - 2;
    var total;
    total, available := CountPieces(Pieces(p.cidr, claims), maxBits);
    FreeSlotsCounted(p.cidr, maxBits, claims);
    count := Capped(total);
    AvailableAscend(p);
    forall x: Block
      ensures x in available <==> IsHole(p.cidr, Claims(p), x) && x.Len() <= maxBits
    {
      AvailableAre(p, x);
    }
  }

  /** A block holds no more smallest blocks than its length allows. */
  lemma FreeSlotsBounded(b: Block, length: nat, claims: set<Block>)
    requires length <= Width(b.family)
    ensures |FreeSlots(b, length, claims)| <= SlotsIn(b, length)
  {
    SlotsCount(b, length);
    SubsetCardinality(FreeSlots(b, length, claims), Slots(b, length));
  }

  lemma {:induction false} SubsetCardinality(a: set<Block>, b: set<Block>)
    requires a <= b
    ensures |a| <= |b|
    decreases a
  {
    if a != {} {
      var x :| x in a;
      SubsetCardinality(a - {x}, b - {x});
    }
  }

  lemma {:induction false} Pow2Monotone(m: nat, n: nat)
    requires m <= n
    ensures Pow2(m) <= Pow2(n)
  {
    if m < n {
      Pow2Monotone(m, n - 1);
    }
  }

  /**
   For IPv4 nothing wraps and nothing is capped: the count is the number of wholly free
   /30 blocks, and free and claimed addresses add up to the prefix.
   */
  lemma IPv4UsageIsExact(p: Prefix)
    requires p.cidr.family.V4? && Sound(p)
    ensures Capped(Wrap(FreeSmallest(p))) == FreeSmallest(p) == |FreeSlots(p.cidr, 30, Claims(p))|
    ensures Addresses(Pieces(p.cidr, Claims(p))) + TotalSize(Claims(p)) == p.cidr.Size()
  {
    IPv4SmallestFits(p);
    AddressesConserved(p.cidr, Claims(p));
    assert Inside(p.cidr, Claims(p)) == Claims(p);
  }

  lemma IPv4SmallestFits(p: Prefix)
    requires p.cidr.family.V4?
    ensures FreeSmallest(p) <= 0x4000_0000
  {
    FreeSlotsBounded(p.cidr, 30, Claims(p));
    Pow2Values();
    if p.cidr.Len() <= 30 {
      Pow2Monotone(30 - p.cidr.Len(), 30);
    }
  }

  // ---- When the count is right

  /** A piece so short that its share does not fit in 64 bits, and is lost. */
  predicate Wide(length: nat, maxBits: nat) {
    length + 64 <= maxBits
  }

  /** What a piece of that length adds to the count. */
  function Share(length: nat, maxBits: nat): nat {
    if length > maxBits || Wide(length, maxBits) then 0 else Pow2(maxBits - length)
  }

  /** The sum of the shares of pieces of these lengths. */
  function Shares(lengths: seq<nat>, maxBits: nat): nat {
    if lengths == [] then 0 else Share(lengths[0], maxBits) + Shares(lengths[1..], maxBits)
  }

  function Lengths(pieces: seq<Block>): (r: seq<nat>)
    ensures |r| == |pieces| && forall i | 0 <= i < |pieces| :: r[i] == pieces[i].Len()
  {
    seq(|pieces|, i requires 0 <= i < |pieces| => pieces[i].Len())
  }

  predicate SomeWide(lengths: seq<nat>, maxBits: nat) {
    exists n | n in lengths :: Wide(n, maxBits)
  }

  lemma WrapSum(a: nat, b: nat, a': nat, b': nat)
    requires Wrap(a) == Wrap(a') && Wrap(b) == Wrap(b')
    ensures Wrap(a + b) == Wrap(a' + b')
  {
    AddModulo(a, b, b);
    AddModulo(a', b, b');
  }

  lemma SlotsAreShare(b: Block, maxBits: nat)
    ensures Wrap(SlotsIn(b, maxBits)) == Wrap(Share(b.Len(), maxBits))
    ensures if Wide(b.Len(), maxBits) then SlotsIn(b, maxBits) >= U64
            else SlotsIn(b, maxBits) == Share(b.Len(), maxBits)
  {
    if Wide(b.Len(), maxBits) {
      ShiftIsModulo(maxBits - b.Len());
    }
  }

  lemma SlotTotalFirst(pieces: seq<Block>, maxBits: nat)
    requires pieces != []
    ensures SlotTotal(pieces, maxBits) == SlotsIn(pieces[0], maxBits) + SlotTotal(pieces[1..], maxBits)
  {
  }

  /** Only the shares survive the 64-bit sum; the true total is them, or out of range if a piece is wide. */
  lemma {:induction false} TotalIsShares(pieces: seq<Block>, maxBits: nat)
    ensures Wrap(SlotTotal(pieces, maxBits)) == Wrap(Shares(Lengths(pieces), maxBits))
    ensures if SomeWide(Lengths(pieces), maxBits) then SlotTotal(pieces, maxBits) >= U64
            else SlotTotal(pieces, maxBits) == Shares(Lengths(pieces), maxBits)
  {
    if pieces != [] {
      var b, rest, lengths := pieces[0], pieces[1..], Lengths(pieces);
      TotalIsShares(rest, maxBits);
      SlotTotalFirst(pieces, maxBits);
      SlotsAreShare(b, maxBits);
      assert lengths[1..] == Lengths(rest);
      WrapSum(SlotsIn(b, maxBits), SlotTotal(rest, maxBits), Share(b.Len(), maxBits), Shares(Lengths(rest), maxBits));
      SomeWideFirst(lengths, maxBits);
    }
  }

  lemma SomeWideFirst(lengths: seq<nat>, maxBits: nat)
    requires lengths != []
    ensures SomeWide(lengths, maxBits) <==> Wide(lengths[0], maxBits) || SomeWide(lengths[1..], maxBits)
  {
    assert lengths == [lengths[0]] + lengths[1..];
  }

  function FreeLengths(p: Prefix): seq<nat> {
    Lengths(Pieces(p.cidr, Claims(p)))
  }

  predicate CountIsRight(p: Prefix) {
    Capped(Wrap(FreeSmallest(p))) == Capped(FreeSmallest(p))
  }

  /**
   The count is the capped number of free smallest blocks exactly when no free piece is wide
   and the shares of the others fit in 64 bits, or what is left of the shares reaches the cap.
   */
  lemma ReportedCountIsRightIff(p: Prefix)
    ensures var maxBits := Width(p.cidr.family) - 2;
            var shares := Shares(FreeLengths(p), maxBits);
            CountIsRight(p) <==> (!SomeWide(FreeLengths(p), maxBits) && shares < U64) || shares % U64 >= MAX_INT32
  {
    var maxBits := Width(p.cidr.family) - 2;
    FreeSlotsCounted(p.cidr, maxBits, Claims(p));
    TotalIsShares(Pieces(p.cidr, Claims(p)), maxBits);
    CappedWrapIff(FreeSmallest(p));
  }

  lemma CappedWrapIff(n: nat)
    ensures Capped(Wrap(n)) == Capped(n) <==> n < U64 || Wrap(n) >= MAX_INT32
  {
  }

  /** For IPv4, and for IPv6 from /63 on, the count is right whatever is claimed. */
  lemma LongPrefixCountIsRight(p: Prefix)
    requires p.cidr.family.V4? || p.cidr.Len() >= 63
    ensures CountIsRight(p) && FreeSmallest(p) < U64
  {
    var maxBits := Width(p.cidr.family) - 2;
    FreeSlotsBounded(p.cidr, maxBits, Claims(p));
    if p.cidr.Len() <= maxBits {
      Pow2Monotone(maxBits - p.cidr.Len(), 63);
    }
    Pow2Values();
    assert Pow2(64) == 2 * Pow2(63);
  }

  /** Where all free pieces that count are wide, the report is that nothing is free. */
  lemma OnlyWidePiecesReportNothing(p: Prefix)
    requires var maxBits := Width(p.cidr.family) - 2;
             SomeWide(FreeLengths(p), maxBits) && forall n | n in FreeLengths(p) :: n > maxBits || Wide(n, maxBits)
    ensures Capped(Wrap(FreeSmallest(p))) == 0 && FreeSmallest(p) >= U64
  {
    var maxBits := Width(p.cidr.family) - 2;
    FreeSlotsCounted(p.cidr, maxBits, Claims(p));
    TotalIsShares(Pieces(p.cidr, Claims(p)), maxBits);
    NoShares(FreeLengths(p), maxBits);
  }

  lemma {:induction false} NoShares(lengths: seq<nat>, maxBits: nat)
    requires forall n | n in lengths :: n > maxBits || Wide(n, maxBits)
    ensures Shares(lengths, maxBits) == 0
  {
    if lengths != [] {
      NoShares(lengths[1..], maxBits);
    }
  }

  /** So does an untouched IPv6 prefix of /62 or shorter. */
  lemma WideIPv6ReportsNothing(p: Prefix)
    requires p.cidr.family.V6? && p.cidr.Len() <= 62 && Claims(p) == {}
    ensures Capped(Wrap(FreeSmallest(p))) == 0 && FreeSmallest(p) >= U64
  {
    assert FreeLengths(p) == [p.cidr.Len()];
    assert p.cidr.Len() in FreeLengths(p);
    OnlyWidePiecesReportNothing(p);
  }
}
