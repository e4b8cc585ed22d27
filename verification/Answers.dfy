/**
 What each request answers and leaves in the store, told by addresses, entries and claims:
 exactly when it is granted, what it changes, and that it changes nothing else.
 */
module Answers {
  import opened Wrappers
  import opened Cidr
  import opened FreeSet
  import opened Prefixes
  import opened Clients
  import opened Forest

  /** Everything stored elsewhere is as it was. */
  ghost predicate OnlyAt(before: Store, after: Store, at: set<Block>) {
    forall k | k !in at :: (k in after <==> k in before) && (k in before && k in after ==> after[k] == before[k])
  }

  /** The record of a new prefix: no children, and only the network and the broadcast address taken. */
  ghost predicate NewRecord(r: Prefix, cidr: Block, parent: Option<Block>) {
    && r.cidr == cidr && r.parent == parent && !r.isParent && r.children == map[] && r.version == 0
    && forall a: nat :: a in r.ips <==> a == cidr.First() || (cidr.family.V4? && a == cidr.Last())
  }

  /** No more entries than a new record has. */
  predicate NoAddresses(r: Prefix) {
    |r.ips| <= if r.cidr.family.V4? then 2 else 1
  }

  // ---- New and deleted prefixes

  predicate Shares(k: Block, cidr: Block, a: nat) {
    k.family == cidr.family && HasAddr(k, a) && HasAddr(cidr, a)
  }

  /** A new prefix is granted exactly if no stored one has an address of it. */
  lemma NewPrefixGrantedIff(store: Store, cidr: Block)
    requires Filed(store)
    ensures var (after, r) := Apply(store, NewPrefix(cidr));
            && (r == Ok(Done) <==> forall k, a: nat | k in store :: !Shares(k, cidr, a))
            && (r != Ok(Done) ==> r == Err(Overlapping) && after == store)
            && (r == Ok(Done) ==> && cidr !in store && cidr in after && NewRecord(after[cidr], cidr, None)
                                  && OnlyAt(store, after, {cidr}))
  {
    forall k | k in store
      ensures Overlaps(k, cidr) <==> exists a: nat :: Shares(k, cidr, a)
    {
      if k.family == cidr.family {
        OverlapsIffSharedAddress(k, cidr);
        assert Overlaps(k, cidr) ==> exists a: nat :: HasAddr(k, a) && HasAddr(cidr, a) && Shares(k, cidr, a);
      }
    }
    assert cidr in store ==> Overlaps(cidr, cidr);
  }

  /** A stored prefix is deleted exactly if it has no addresses. */
  lemma DeletePrefixGrantedIff(store: Store, cidr: Block)
    requires Filed(store)
    ensures var (after, r) := Apply(store, DeletePrefix(cidr));
            && (r == Ok(Done) <==> cidr in store && NoAddresses(store[cidr]))
            && (r != Ok(Done) ==> after == store && r == Err(if cidr in store then HasAddresses else NotFound))
            && (r == Ok(Done) ==> cidr !in after && OnlyAt(store, after, {cidr}))
  {
  }

  // ---- Released children

  /**
   A release is granted exactly if the handle names a stored parent and counts at most two
   entries, and the child is stored without addresses, and is not that parent.
   */
  predicate Releasable(store: Store, h: Handle) {
    && h.parent.Some? && h.parent.value in store && h.ipCount <= 2
    && h.child in store && NoAddresses(store[h.child]) && h.child != h.parent.value
  }

  lemma ReleaseGrantedIff(store: Store, h: Handle)
    requires Filed(store)
    ensures var (after, r) := Apply(store, Release(h));
            && (r == Ok(Done) <==> Releasable(store, h))
            && (r == Ok(Done) ==> && var p := h.parent.value;
                                     && h.child !in after && p in after && OnlyAt(store, after, {h.child, p})
                                     && Claims(after[p]) == Claims(store[p]) - {h.child}
                                     && after[p] == store[p].(children := after[p].children,
                                                              version := store[p].version + 1))
  {
    if Releasable(store, h) {
      ReleaseComputes(store[h.parent.value], h.child);
    }
  }

  /** Why a release is refused, in the order in which the reasons are looked at. */
  lemma ReleaseRefused(store: Store, h: Handle)
    requires Filed(store) && !Releasable(store, h)
    ensures var (after, r) := Apply(store, Release(h));
            if h.parent.None? || h.parent.value !in store then r == Err(NoChildPrefix) && after == store
            else if h.ipCount > 2 then r == Err(HasAddresses) && after == store
            else if h.child !in store then r == Err(NotFound) && after == store
            else if !NoAddresses(store[h.child]) then r == Err(HasAddresses) && after == store
            else r == Err(NotFound) && h.child !in after && OnlyAt(store, after, {h.child})
  {
  }

  /** In a forest, every child without addresses can be released by its own handle. */
  lemma ChildCanBeReleased(store: Store, p: Block, x: Block, ipCount: nat)
    requires IsForest(store) && p in store && x in Claims(store[p]) && NoAddresses(store[x]) && ipCount <= 2
    ensures var (after, r) := Apply(store, Release(Handle(x, Some(p), ipCount)));
            && r == Ok(Done) && x !in after && p in after && OnlyAt(store, after, {x, p})
            && Claims(after[p]) == Claims(store[p]) - {x}
            && after[p].ips == store[p].ips && after[p].parent == store[p].parent
  {
    assert StrictlyWithin(x, p);
    ReleaseGrantedIff(store, Handle(x, Some(p), ipCount));
  }

  // ---- Acquired children

  /** The block is one that was asked for, inside the prefix and apart from its claims. */
  predicate Suits(r: Prefix, want: Want, x: Block) {
    && (if want.OfLength? then x.Len() == want.length else x == want.cidr)
    && StrictlyWithin(x, r.cidr) && Untouched(x, Claims(r))
  }

  ghost predicate Grantable(store: Store, p: Block, want: Want) {
    p in store && NoAddresses(store[p]) && exists x: Block :: Suits(store[p], want, x)
  }

  /** What a grant does to the parent. */
  ghost predicate ClaimedIn(before: Prefix, after: Prefix, x: Block) {
    && Claims(after) == Claims(before) + {x} && after.isParent
    && after == before.(children := after.children, isParent := true, version := before.version + 1)
  }

  /**
   A child is claimed exactly if the parent is stored without addresses and has a free block as
   asked for; the child is then filed, unless a record of that block is there already.
   */
  lemma ChildGrantedIff(store: Store, p: Block, want: Want)
    requires Filed(store) && WellFormed(AcquireChild(p, want))
    ensures var (after, r) := Apply(store, Swap(AcquireChild(p, want)));
            && (!Grantable(store, p, want) ==> && r.Err? && after == store
                                               && (p !in store ==> r == Err(NotFound))
                                               && (p in store ==> ClaimChild(store[p], want) == Err(r.error)))
            && (Grantable(store, p, want) ==>
                  exists x: Block :: && Suits(store[p], want, x) && p in after && ClaimedIn(store[p], after[p], x)
                                     && OnlyAt(store, after, {p, x}) && x in after
                                     && if x in store then r == Err(AlreadyCreated) && after[x] == store[x]
                                        else r == Ok(Child(x)) && NewRecord(after[x], x, Some(p)))
  {
    if p in store {
      SuitsIff(store[p], want);
      if ClaimChild(store[p], want).Ok? {
        ChildIsClaimed(store, p, want);
      }
    }
  }

  lemma SuitsIff(r: Prefix, want: Want)
    requires want.OfLength? ==> want.length <= Width(r.cidr.family)
    ensures ClaimChild(r, want).Ok? <==> NoAddresses(r) && exists x: Block :: Suits(r, want, x)
  {
    ClaimGrantedIff(r, want);
    if ClaimChild(r, want).Ok? {
      ClaimIsFree(r, want);
      assert Suits(r, want, ClaimChild(r, want).value.1.child);
    }
  }

  /** What a grant leaves behind, step by step. */
  lemma GrantedStore(store: Store, p: Block, want: Want, next: Prefix, x: Block)
    requires Filed(store) && WellFormed(AcquireChild(p, want)) && p in store
    requires ClaimChild(store[p], want) == Ok((next, Child(x)))
    ensures p != x && Suits(store[p], want, x) && ClaimedIn(store[p], Commit(next), x)
    ensures Apply(store, Swap(AcquireChild(p, want))) ==
              if x in store then (store[p := Commit(next)], Err(AlreadyCreated))
              else (store[p := Commit(next)][x := Fresh(x, Some(p))], Ok(Child(x)))
  {
    ClaimIsFree(store[p], want);
    assert Claims(Commit(next)) == Claims(next);
    SubBlockInOneHalf(x, p);
  }

  lemma ChildIsClaimed(store: Store, p: Block, want: Want)
    requires Filed(store) && WellFormed(AcquireChild(p, want)) && p in store && ClaimChild(store[p], want).Ok?
    ensures ClaimChild(store[p], want).value.1.Child?
    ensures var (after, r) := Apply(store, Swap(AcquireChild(p, want)));
            var x := ClaimChild(store[p], want).value.1.child;
            && Suits(store[p], want, x) && p in after && ClaimedIn(store[p], after[p], x)
            && OnlyAt(store, after, {p, x}) && x in after
            && if x in store then r == Err(AlreadyCreated) && after[x] == store[x]
               else r == Ok(Child(x)) && NewRecord(after[x], x, Some(p))
  {
    ClaimIsFree(store[p], want);
    var (next, outcome) := ClaimChild(store[p], want).value;
    GrantedStore(store, p, want, next, outcome.child);
  }

  /** In a forest a record is never in the way. */
  lemma ChildInForestGrantedIff(store: Store, p: Block, want: Want)
    requires IsForest(store) && WellFormed(AcquireChild(p, want))
    ensures var r := Apply(store, Swap(AcquireChild(p, want))).1;
            r.Ok? <==> Grantable(store, p, want)
  {
    ChildGrantedIff(store, p, want);
    SwapKeepsForest(store, AcquireChild(p, want));
  }

  /** Which child of a given length is granted: the lowest block of the smallest hole that it fits in. */
  lemma ChildIsLowest(store: Store, p: Block, length: nat, x: Block)
    requires Filed(store) && p in store && length <= Width(p.family)
    requires Apply(store, Swap(AcquireChild(p, OfLength(length)))).1 == Ok(Child(x))
    ensures LowestFit(p, Claims(store[p]), length, x)
  {
    ClaimIsLowest(store[p], length);
  }

  /** So the first child of a prefix starts where the prefix does. */
  lemma FirstChildIsLowest(store: Store, p: Block, length: nat, x: Block)
    requires Filed(store) && p in store && length <= Width(p.family) && Claims(store[p]) == {}
    requires Apply(store, Swap(AcquireChild(p, OfLength(length)))).1 == Ok(Child(x))
    ensures x.First() == p.First() && x.Len() == length
  {
    ClaimIsFree(store[p], OfLength(length));
    SubBlockInOneHalf(x, p);
    ChildIsLowest(store, p, length, x);
    assert IsHole(p, {}, p);
  }

  // ---- Addresses

  /** The record with other entries, written once. */
  ghost predicate EntriesChanged(before: Prefix, after: Prefix) {
    after == before.(ips := after.ips, version := before.version + 1)
  }

  /** An address is granted exactly as `AddressGrantedIff` says, and becomes the one new entry. */
  lemma AddressIsGranted(store: Store, p: Block, ip: Option<Addr>)
    requires Filed(store)
    ensures var (after, r) := Apply(store, Swap(AcquireIp(p, ip)));
            && (r.Ok? <==> p in store && !store[p].isParent && exists a: nat ::
                             && HasAddr(p, a) && a !in store[p].ips && (ip.None? || ip.value == Addr(p.family, a)))
            && (r.Err? ==> && after == store && (p !in store ==> r == Err(NotFound))
                           && (p in store ==> TakeIp(store[p], ip) == Err(r.error)))
            && (r.Ok? ==> && r.value.Ip? && HasAddr(p, r.value.ip) && r.value.ip !in store[p].ips
                          && (ip.Some? ==> ip.value == Addr(p.family, r.value.ip))
                          && (ip.None? ==> forall a | p.First() <= a < r.value.ip :: a in store[p].ips)
                          && p in after && OnlyAt(store, after, {p}) && EntriesChanged(store[p], after[p])
                          && after[p].ips == store[p].ips + {r.value.ip})
  {
    if p in store {
      AddressGrantedIff(store[p], ip);
    }
  }

  /** An address is released exactly if it is an entry, and is then the one that is gone. */
  lemma AddressIsReleased(store: Store, p: Block, addr: Addr)
    requires Filed(store)
    ensures var (after, r) := Apply(store, Swap(ReleaseIp(p, addr)));
            && (r == Ok(Done) <==> p in store && addr.family == p.family && addr.value in store[p].ips)
            && (r != Ok(Done) ==> r == Err(NotFound) && after == store)
            && (r == Ok(Done) ==> && p in after && OnlyAt(store, after, {p}) && EntriesChanged(store[p], after[p])
                                  && after[p].ips == store[p].ips - {addr.value})
  {
    if p in store {
      AddressReleasedIff(store[p], addr);
    }
  }

  // ---- Round trips

  /** The same prefixes, with the same parents, claims and entries. */
  ghost predicate SameShape(a: Store, b: Store) {
    && a.Keys == b.Keys
    && forall k | k in a && k in b :: b[k].parent == a[k].parent && Claims(b[k]) == Claims(a[k]) && b[k].ips == a[k].ips
  }

  /** A forest is as before once a child that was acquired has been released. */
  lemma AcquireThenRelease(store: Store, p: Block, want: Want, x: Block, ipCount: nat)
    requires IsForest(store) && WellFormed(AcquireChild(p, want)) && ipCount <= 2
    requires Apply(store, Swap(AcquireChild(p, want))).1 == Ok(Child(x))
    ensures var acquired := Apply(store, Swap(AcquireChild(p, want))).0;
            && IsForest(acquired)
            && var (after, r) := Apply(acquired, Release(Handle(x, Some(p), ipCount)));
               r == Ok(Done) && SameShape(store, after)
  {
    var acquired := Apply(store, Swap(AcquireChild(p, want))).0;
    SwapKeepsForest(store, AcquireChild(p, want));
    ChildIsClaimed(store, p, want);
    NewRecordHasNoAddresses(acquired[x]);
    ChildCanBeReleased(acquired, p, x, ipCount);
    ShapeIsBack(store, acquired, Apply(acquired, Release(Handle(x, Some(p), ipCount))).0, p, x);
  }

  lemma ShapeIsBack(store: Store, acquired: Store, after: Store, p: Block, x: Block)
    requires p in store && p in acquired && p in after && x !in store && x !in after && x !in Claims(store[p])
    requires OnlyAt(store, acquired, {p, x}) && OnlyAt(acquired, after, {x, p})
    requires Claims(acquired[p]) == Claims(store[p]) + {x} && Claims(after[p]) == Claims(acquired[p]) - {x}
    requires after[p].parent == store[p].parent && after[p].ips == store[p].ips
    ensures SameShape(store, after)
  {
    assert forall k :: k in after <==> k in store;
  }

  lemma NewRecordHasNoAddresses(r: Prefix)
    requires NewRecord(r, r.cidr, r.parent)
    ensures NoAddresses(r)
  {
    assert r.ips == Reserved(r.cidr);
  }

  lemma SameElsewhere(store: Store, made: Store, after: Store, cidr: Block)
    requires OnlyAt(store, made, {cidr}) && OnlyAt(made, after, {cidr}) && cidr !in store && cidr !in after
    ensures after == store
  {
    assert after.Keys == store.Keys;
  }

  /** A prefix that was made can be deleted again, and the store is what it was. */
  lemma NewThenDelete(store: Store, cidr: Block)
    requires Filed(store) && Apply(store, NewPrefix(cidr)).1 == Ok(Done)
    ensures var made := Apply(store, NewPrefix(cidr)).0;
            && Filed(made)
            && var (after, r) := Apply(made, DeletePrefix(cidr));
               r == Ok(Done) && after == store
  {
    NewPrefixGrantedIff(store, cidr);
    ApplyKeepsFiled(store, NewPrefix(cidr));
    var made := Apply(store, NewPrefix(cidr)).0;
    NewRecordHasNoAddresses(made[cidr]);
    DeletePrefixGrantedIff(made, cidr);
    var after := Apply(made, DeletePrefix(cidr)).0;
    SameElsewhere(store, made, after, cidr);
  }

  /** A store is as before once an address that was acquired has been released. */
  lemma AcquireThenReleaseIp(store: Store, p: Block, ip: Option<Addr>, a: nat)
    requires Filed(store) && Apply(store, Swap(AcquireIp(p, ip))).1 == Ok(Ip(a))
    ensures var acquired := Apply(store, Swap(AcquireIp(p, ip))).0;
            && Filed(acquired)
            && var (after, r) := Apply(acquired, Swap(ReleaseIp(p, Addr(p.family, a))));
               r == Ok(Done) && SameShape(store, after)
  {
    AddressIsGranted(store, p, ip);
    ApplyKeepsFiled(store, Swap(AcquireIp(p, ip)));
    var acquired := Apply(store, Swap(AcquireIp(p, ip))).0;
    AddressIsReleased(acquired, p, Addr(p.family, a));
    assert Claims(acquired[p]) == Claims(store[p]);
  }
}
