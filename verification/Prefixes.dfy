/**
 One prefix record and what each operation computes from a snapshot of it. These are the
 local computations of prefix.go, between reading a record and writing it back.
 */
module Prefixes {
  import opened Wrappers
  import opened Cidr
  import opened FreeSet

  /** `children` is the `availableChildPrefixes` map: `false` marks a claimed child. */
  datatype Prefix = Prefix(
    cidr: Block,
    parent: Option<Block>,
    isParent: bool,
    children: map<Block, bool>,
    ips: set<nat>,
    version: nat)

  datatype Error =
    | NotFound
    | LengthNotGreater
    | HasAddresses
    | NoPrefixLeft
    | ChildNotAvailable
    | HasChildren
    | AddressNotInPrefix
    | AlreadyAllocated
    | NoIpAvailable
    | NoChildPrefix
    | AlreadyCreated
    | Overlapping
    | OptimisticLock

  /** A child is asked for by length or by its exact, masked CIDR. */
  datatype Want = OfLength(length: nat) | Exactly(cidr: Block)

  /** The operations that end in a compare-and-swap of one record. */
  datatype Op =
    | AcquireChild(parent: Block, want: Want)
    | ReleaseChild(parent: Block, child: Block)
    | AcquireIp(prefix: Block, ip: Option<Addr>)
    | ReleaseIp(prefix: Block, addr: Addr)

  datatype Outcome = Child(child: Block) | Ip(ip: nat) | Done

  function Target(op: Op): Block {
    match op
    case AcquireChild(parent, _) => parent
    case ReleaseChild(parent, _) => parent
    case AcquireIp(prefix, _) => prefix
    case ReleaseIp(prefix, _) => prefix
  }

  /** Lengths are at most the address width of the family they are asked in. */
  predicate WellFormed(op: Op) {
    op.AcquireChild? && op.want.OfLength? ==> op.want.length <= Width(op.parent.family)
  }

  /** The network address, and for IPv4 the broadcast address, are taken from the start. */
  function Reserved(b: Block): (r: set<nat>)
    ensures forall a | a in r :: HasAddr(b, a)
  {
    match b.family
    case V4 => {b.First(), b.Last()}
    case V6 => {b.First()}
  }

  function Fresh(cidr: Block, parent: Option<Block>): Prefix {
    Prefix(cidr, parent, false, map[], Reserved(cidr), 0)
  }

  function ReservedCount(f: Family): nat {
    match f
    case V4 => 2
    case V6 => 1
  }

  predicate HasIps(p: Prefix) {
    |p.ips| > ReservedCount(p.cidr.family)
  }

  function Unavailable(children: map<Block, bool>): set<Block> {
    set c | c in children && !children[c]
  }

  /** The children claimed in a prefix. */
  function Claims(p: Prefix): set<Block> {
    Unavailable(p.children)
  }

  // ---- The computations

  function ClaimChild(p: Prefix, want: Want): Result<(Prefix, Outcome), Error>
    requires want.OfLength? ==> want.length <= Width(p.cidr.family)
  {
    var length := if want.OfLength? then want.length else want.cidr.Len();
    if p.cidr.Len() >= length then Err(LengthNotGreater)
    else if HasIps(p) then Err(HasAddresses)
    else
      var found :=
        if want.OfLength? then TakeFree(p.cidr, Claims(p), length)
        else if Within(want.cidr, p.cidr) && Untouched(want.cidr, Claims(p)) then Some(want.cidr)
        else None;
      if found.None? then Err(if want.OfLength? then NoPrefixLeft else ChildNotAvailable)
      else Ok((p.(children := p.children[found.value := false], isParent := true), Child(found.value)))
  }

  /** The lowest address from `from` on that is not taken. */
  function LowestFree(b: Block, ips: set<nat>, from: nat): (r: Option<nat>)
    ensures r.Some? ==> from <= r.value <= b.Last() && r.value !in ips
    ensures r.Some? ==> forall a | from <= a < r.value :: a in ips
    ensures r.None? ==> forall a | from <= a <= b.Last() :: a in ips
    decreases b.Last() + 1 - from
  {
    if from > b.Last() then None
    else if from !in ips then Some(from)
    else LowestFree(b, ips, from + 1)
  }

  function TakeIp(p: Prefix, ip: Option<Addr>): Result<(Prefix, Outcome), Error> {
    if p.isParent then Err(HasChildren)
    else if ip.Some? && !(ip.value.family == p.cidr.family && HasAddr(p.cidr, ip.value.value)) then
      Err(AddressNotInPrefix)
    else if ip.Some? && ip.value.value in p.ips then Err(AlreadyAllocated)
    else
      var found := if ip.Some? then Some(ip.value.value) else LowestFree(p.cidr, p.ips, p.cidr.First());
      if found.None? then Err(NoIpAvailable)
      else Ok((p.(ips := p.ips + {found.value}), Ip(found.value)))
  }

  function DropIp(p: Prefix, ip: Addr): Result<(Prefix, Outcome), Error> {
    if ip.family != p.cidr.family || ip.value !in p.ips then Err(NotFound)
    else Ok((p.(ips := p.ips - {ip.value}), Done))
  }

  /** What an operation writes back, and what it hands to its caller. */
  function Compute(op: Op, p: Prefix): Result<(Prefix, Outcome), Error>
    requires WellFormed(op) && p.cidr == Target(op)
  {
    match op
    case AcquireChild(_, want) => ClaimChild(p, want)
    case ReleaseChild(_, child) => Ok((p.(children := p.children[child := true]), Done))
    case AcquireIp(_, ip) => TakeIp(p, ip)
    case ReleaseIp(_, ip) => DropIp(p, ip)
  }

  // ---- What every computation keeps

  /**
   Claimed children are disjoint and strictly inside; a prefix that has claimed children is
   a parent, and a parent holds no more than its reserved entries.
   */
  predicate Sound(p: Prefix) {
    && Disjoint(Claims(p))
    && (forall c | c in Claims(p) :: StrictlyWithin(c, p.cidr))
    && (Claims(p) != {} ==> p.isParent)
    && (p.isParent ==> !HasIps(p))
  }

  lemma FreshIsSound(cidr: Block, parent: Option<Block>)
    ensures Sound(Fresh(cidr, parent))
  {
  }

  /** A computed claim is strictly inside and touches no earlier claim. */
  lemma ClaimIsFree(p: Prefix, want: Want)
    requires want.OfLength? ==> want.length <= Width(p.cidr.family)
    requires ClaimChild(p, want).Ok?
    ensures var (q, out) := ClaimChild(p, want).value;
            && out.Child? && StrictlyWithin(out.child, p.cidr) && Untouched(out.child, Claims(p))
            && Claims(q) == Claims(p) + {out.child}
            && (want.OfLength? ==> out.child.Len() == want.length)
            && (want.Exactly? ==> out.child == want.cidr)
            && q == p.(children := q.children, isParent := true)
  {
    if want.OfLength? {
      TakeFreeFindsOne(p.cidr, Claims(p), want.length);
    }
  }

  /** A child is granted exactly when the parent has no addresses and a fitting block is free. */
  lemma ClaimGrantedIff(p: Prefix, want: Want)
    requires want.OfLength? ==> want.length <= Width(p.cidr.family)
    ensures ClaimChild(p, want).Ok?
       <==> !HasIps(p) && exists x: Block ::
              && (if want.OfLength? then x.Len() == want.length else x == want.cidr)
              && StrictlyWithin(x, p.cidr) && Untouched(x, Claims(p))
  {
    if want.OfLength? {
      TakeFreeFindsOne(p.cidr, Claims(p), want.length);
    }
    if ClaimChild(p, want).Ok? {
      ClaimIsFree(p, want);
    }
    forall x: Block | StrictlyWithin(x, p.cidr)
      ensures p.cidr.Len() < x.Len()
    {
      SubBlockInOneHalf(x, p.cidr);
    }
  }

  /** A child of a given length is the lowest block of the smallest hole that it fits in. */
  lemma ClaimIsLowest(p: Prefix, length: nat)
    requires length <= Width(p.cidr.family) && ClaimChild(p, OfLength(length)).Ok?
    ensures var outcome := ClaimChild(p, OfLength(length)).value.1;
            outcome.Child? && LowestFit(p.cidr, Claims(p), length, outcome.child)
  {
    TakeFreeIsLowest(p.cidr, Claims(p), length);
  }

  /** Why a child is refused, in the order in which the reasons are looked at. */
  lemma ClaimRefusedIff(p: Prefix, want: Want)
    requires want.OfLength? ==> want.length <= Width(p.cidr.family)
    ensures var length := if want.OfLength? then want.length else want.cidr.Len();
            && (ClaimChild(p, want) == Err(LengthNotGreater) <==> length <= p.cidr.Len())
            && (ClaimChild(p, want) == Err(HasAddresses) <==> p.cidr.Len() < length && HasIps(p))
    ensures want.OfLength? && ClaimChild(p, want).Err? ==>
              ClaimChild(p, want).error in {LengthNotGreater, HasAddresses, NoPrefixLeft}
    ensures want.Exactly? && ClaimChild(p, want).Err? ==>
              ClaimChild(p, want).error in {LengthNotGreater, HasAddresses, ChildNotAvailable}
  {
  }

  predicate SameIdentity(p: Prefix, q: Prefix) {
    q.cidr == p.cidr && q.parent == p.parent && q.version == p.version
  }

  lemma ClaimKeepsSound(p: Prefix, q: Prefix, child: Block)
    requires Sound(p) && !HasIps(p) && StrictlyWithin(child, p.cidr) && Untouched(child, Claims(p))
    requires Claims(q) == Claims(p) + {child} && q == p.(children := q.children, isParent := true)
    ensures Sound(q)
  {
    forall c, d | c in Claims(q) && d in Claims(q) && c != d
      ensures !Overlaps(c, d)
    {
      assert c == child || d == child || (c in Claims(p) && d in Claims(p));
    }
  }

  lemma AddressesKeepSound(p: Prefix, q: Prefix)
    requires Sound(p) && q == p.(ips := q.ips)
    requires p.isParent ==> |q.ips| <= |p.ips|
    ensures Sound(q)
  {
    assert Claims(q) == Claims(p);
  }

  lemma GrantKeepsSound(p: Prefix, want: Want)
    requires want.OfLength? ==> want.length <= Width(p.cidr.family)
    requires Sound(p) && ClaimChild(p, want).Ok?
    ensures var q := ClaimChild(p, want).value.0; Sound(q) && SameIdentity(p, q)
  {
    ClaimIsFree(p, want);
    ClaimKeepsSound(p, ClaimChild(p, want).value.0, ClaimChild(p, want).value.1.child);
  }

  lemma DropKeepsSound(p: Prefix, addr: Addr)
    requires Sound(p) && DropIp(p, addr).Ok?
    ensures Sound(DropIp(p, addr).value.0)
  {
    var q := DropIp(p, addr).value.0;
    assert p.ips == q.ips + {addr.value};
    AddressesKeepSound(p, q);
  }

  /** Every computation, on any sound snapshot, gives a sound record. */
  lemma ComputeKeepsSound(op: Op, p: Prefix)
    requires WellFormed(op) && p.cidr == Target(op) && Sound(p)
    requires Compute(op, p).Ok?
    ensures var q := Compute(op, p).value.0; Sound(q) && SameIdentity(p, q)
  {
    var q := Compute(op, p).value.0;
    match op
    case AcquireChild(_, want) =>
      GrantKeepsSound(p, want);
    case ReleaseChild(_, child) =>
      assert Claims(q) == Claims(p) - {child};
    case AcquireIp(_, _) =>
      AddressesKeepSound(p, q);
    case ReleaseIp(_, addr) =>
      DropKeepsSound(p, addr);
  }

  // ---- Addresses

  /** A prefix without children hands out an address exactly if the one asked for, or any, is free in it. */
  lemma AddressGrantedIff(p: Prefix, ip: Option<Addr>)
    ensures TakeIp(p, ip).Ok? <==>
              && !p.isParent
              && exists a: nat :: && HasAddr(p.cidr, a) && a !in p.ips
                                  && (ip.None? || ip.value == Addr(p.cidr.family, a))
    ensures TakeIp(p, ip) == Err(HasChildren) <==> p.isParent
    ensures TakeIp(p, ip) == Err(AddressNotInPrefix) <==>
              && !p.isParent && ip.Some?
              && (ip.value.family != p.cidr.family || !HasAddr(p.cidr, ip.value.value))
    ensures TakeIp(p, ip) == Err(AlreadyAllocated) <==>
              && !p.isParent && ip.Some?
              && ip.value.family == p.cidr.family && HasAddr(p.cidr, ip.value.value) && ip.value.value in p.ips
    ensures TakeIp(p, ip) == Err(NoIpAvailable) <==>
              !p.isParent && ip.None? && forall a: nat | HasAddr(p.cidr, a) :: a in p.ips
  {
    if ip.Some? && TakeIp(p, ip).Ok? {
      var a := ip.value.value;
      assert HasAddr(p.cidr, a) && a !in p.ips && ip.value == Addr(p.cidr.family, a);
    }
  }

  /** An entry is released exactly if it is there, and only it. */
  lemma AddressReleasedIff(p: Prefix, addr: Addr)
    ensures DropIp(p, addr).Ok? <==> addr.family == p.cidr.family && addr.value in p.ips
    ensures DropIp(p, addr).Err? ==> DropIp(p, addr) == Err(NotFound)
    ensures DropIp(p, addr).Ok? ==>
              var (q, outcome) := DropIp(p, addr).value;
              && outcome == Done && q == p.(ips := q.ips)
              && forall a: nat :: a in q.ips <==> a in p.ips && a != addr.value
  {
  }

  /** Releasing an address that was just handed out gives the record back, and the other way round. */
  lemma AddressRoundTrip(p: Prefix, ip: Option<Addr>, addr: Addr)
    ensures TakeIp(p, ip).Ok? ==>
              var (q, outcome) := TakeIp(p, ip).value;
              outcome.Ip? && DropIp(q, Addr(p.cidr.family, outcome.ip)) == Ok((p, Done))
    ensures DropIp(p, addr).Ok? && HasAddr(p.cidr, addr.value) && !p.isParent ==>
              TakeIp(DropIp(p, addr).value.0, Some(addr)) == Ok((p, Ip(addr.value)))
  {
    if TakeIp(p, ip).Ok? {
      var (q, outcome) := TakeIp(p, ip).value;
      assert q.ips - {outcome.ip} == p.ips;
    }
    if DropIp(p, addr).Ok? {
      assert DropIp(p, addr).value.0.ips + {addr.value} == p.ips;
    }
  }

  // ---- Capacity

  function Commit(p: Prefix): Prefix {
    p.(version := p.version + 1)
  }

  /** `n` calls of AcquireIP in a row: the record they leave and the addresses they return. */
  function Drain(p: Prefix, n: nat): Result<(Prefix, seq<nat>), Error> {
    if n == 0 then Ok((p, []))
    else
      var before := Drain(p, n - 1);
      if before.Err? then before
      else
        var next := TakeIp(before.value.0, None);
        if next.Err? then Err(next.error)
        else Ok((Commit(next.value.0), before.value.1 + [next.value.1.ip]))
  }

  /** The number of addresses a fresh prefix has to give. */
  function Capacity(b: Block): nat {
    var reserved := ReservedCount(b.family);
    if b.Size() <= reserved then 0 else b.Size() - reserved
  }

  predicate Consecutive(got: seq<nat>, after: nat) {
    forall i | 0 <= i < |got| :: got[i] == after + 1 + i
  }

  ghost predicate TakenThrough(ips: set<nat>, b: Block, n: nat) {
    forall a: nat :: a in ips <==> a in Reserved(b) || b.First() < a <= b.First() + n
  }

  lemma NextIsLowest(ips: set<nat>, b: Block, n: nat)
    requires n < Capacity(b) && TakenThrough(ips, b, n)
    ensures LowestFree(b, ips, b.First()) == Some(b.First() + n + 1)
  {
    var first, next := b.First(), b.First() + n + 1;
    var r := LowestFree(b, ips, first);
    assert next !in ips && next <= b.Last();
    assert first in ips;
  }

  lemma NoneIsLeft(ips: set<nat>, b: Block)
    requires TakenThrough(ips, b, Capacity(b))
    ensures LowestFree(b, ips, b.First()).None?
  {
    var r := LowestFree(b, ips, b.First());
    assert b.First() in ips;
  }

  lemma TakeNext(p: Prefix, n: nat)
    requires !p.isParent && n < Capacity(p.cidr) && TakenThrough(p.ips, p.cidr, n)
    ensures var a := p.cidr.First() + n + 1;
            && TakeIp(p, None) == Ok((p.(ips := p.ips + {a}), Ip(a)))
            && TakenThrough(p.ips + {a}, p.cidr, n + 1)
  {
    NextIsLowest(p.ips, p.cidr, n);
  }

  /** The addresses handed out are consecutive, from the one after the network address. */
  lemma {:induction false} DrainSoFar(b: Block, parent: Option<Block>, n: nat)
    requires n <= Capacity(b)
    ensures Drain(Fresh(b, parent), n).Ok?
    ensures var (p, got) := Drain(Fresh(b, parent), n).value;
            && p.cidr == b && !p.isParent && TakenThrough(p.ips, b, n)
            && |got| == n && Consecutive(got, b.First())
  {
    if n > 0 {
      DrainSoFar(b, parent, n - 1);
      TakeNext(Drain(Fresh(b, parent), n - 1).value.0, n - 1);
    }
  }

  /** Exactly `Capacity` calls succeed, in increasing order; every later one finds no address. */
  lemma {:induction false} CapacityIsExact(b: Block, parent: Option<Block>, n: nat)
    ensures Drain(Fresh(b, parent), n).Ok? <==> n <= Capacity(b)
    ensures n <= Capacity(b) ==>
              var got := Drain(Fresh(b, parent), n).value.1;
              |got| == n && Consecutive(got, b.First())
    ensures n > Capacity(b) ==> Drain(Fresh(b, parent), n) == Err(NoIpAvailable)
    decreases n
  {
    if n <= Capacity(b) {
      DrainSoFar(b, parent, n);
    } else if n == Capacity(b) + 1 {
      DrainSoFar(b, parent, n - 1);
      NoneIsLeft(Drain(Fresh(b, parent), n - 1).value.0.ips, b);
    } else {
      CapacityIsExact(b, parent, n - 1);
    }
  }

  /** Capacity in the usual notation: 2^(32-b)-2 for IPv4 up to /31, 2^(128-b)-1 for IPv6. */
  lemma CapacityByLength(b: Block)
    ensures b.family.V4? && b.Len() <= 31 ==> Capacity(b) == Pow2(32 - b.Len()) - 2
    ensures b.family.V4? && b.Len() == 32 ==> Capacity(b) == 0
    ensures b.family.V6? ==> Capacity(b) == Pow2(128 - b.Len()) - 1
  {
    if b.family.V4? && b.Len() <= 31 {
      assert Pow2(32 - b.Len()) == 2 * Pow2(31 - b.Len());
    }
  }
}
