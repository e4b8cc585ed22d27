/**
 The ipamer of prefix.go as an object over the in-memory store: each method, run on its
 own, does to the prefixes of its namespace exactly what `Forest.Apply` says, and nothing
 to any other namespace.
 */
module Ipamer {
  import opened Wrappers
  import opened Cidr
  import opened FreeSet
  import opened Prefixes
  import opened Clients
  import opened Forest
  import opened Answers
  import opened Storage

  /** The request took `before` to `after` and was answered with `r`. */
  ghost predicate Performs(before: Records, after: Records, namespace: string, request: Request,
                           r: Result<Outcome, Error>)
    requires Filed(View(before, namespace)) && ValidRequest(request)
  {
    && (View(after, namespace), r) == Apply(View(before, namespace), request)
    && OnlyIn(before, after, namespace)
  }

  // ---- The loops

  /** Gathers the claimed children, as the builder of the address set does. */
  method CollectClaims(children: map<Block, bool>) returns (claims: set<Block>)
    ensures claims == Unavailable(children)
  {
    claims := {};
    var left := children.Keys;
    while left != {}
      invariant left <= children.Keys
      invariant claims == set c | c in children.Keys - left && !children[c]
      decreases left
    {
      var c :| c in left;
      left := left - {c};
      if !children[c] {
        claims := claims + {c};
      }
    }
  }

  method CountClaims(children: map<Block, bool>) returns (count: nat)
    ensures count == |Unavailable(children)|
  {
    count := 0;
    ghost var counted: set<Block> := {};
    var left := children.Keys;
    while left != {}
      invariant left <= children.Keys
      invariant counted == set c | c in children.Keys - left && !children[c]
      invariant count == |counted|
      decreases left
    {
      var c :| c in left;
      left := left - {c};
      if !children[c] {
        count := count + 1;
        counted := counted + {c};
      }
    }
    assert counted == Unavailable(children);
  }

  /** The search of `RemoveFreePrefix` for the best-fitting hole. */
  method FindBestFit(pieces: seq<Block>, length: nat) returns (best: Option<Block>)
    ensures best == BestFit(pieces, length)
  {
    best := None;
    for i := 0 to |pieces|
      invariant best == BestFit(pieces[..i], length)
    {
      assert pieces[..i + 1][..i] == pieces[..i];
      if pieces[i].Len() <= length && (best.None? || pieces[i].Len() > best.value.Len()) {
        best := Some(pieces[i]);
      }
    }
    assert pieces[..|pieces|] == pieces;
  }

  /** The walk over the addresses of a prefix in AcquireIP and AcquireSpecificIP. */
  method FindIp(b: Block, ips: set<nat>, wanted: Option<nat>) returns (found: Option<nat>)
    requires wanted.Some? ==> HasAddr(b, wanted.value) && wanted.value !in ips
    ensures found == if wanted.Some? then wanted else LowestFree(b, ips, b.First())
  {
    var a := b.First();
    while a <= b.Last()
      invariant b.First() <= a <= b.Last() + 1
      invariant wanted.Some? ==> a <= wanted.value
      invariant wanted.None? ==> forall x | b.First() <= x < a :: x in ips
      decreases b.Last() + 1 - a
    {
      if a !in ips && (wanted.None? || wanted.value == a) {
        return Some(a);
      }
      a := a + 1;
    }
    return None;
  }

  /** PrefixesOverlapping, for one new prefix. */
  method AnyOverlap(existing: seq<Block>, cidr: Block) returns (found: bool)
    ensures found <==> exists b | b in existing :: Overlaps(b, cidr)
  {
    for i := 0 to |existing|
      invariant forall b | b in existing[..i] :: !Overlaps(b, cidr)
    {
      if Overlaps(existing[i], cidr) {
        return true;
      }
    }
    return false;
  }

  method RemoveFreePrefix(b: Block, claims: set<Block>, length: nat) returns (r: Option<Block>)
    requires length <= Width(b.family)
    ensures r == TakeFree(b, claims, length)
    ensures r.Some? ==> LowestFit(b, claims, length, r.value)
    ensures r.None? ==> forall x: Block | x.Len() == length && Within(x, b) :: !Untouched(x, claims)
  {
    TakeFreeFindsOne(b, claims, length);
    var hole := FindBestFit(Pieces(b, claims), length);
    if hole.None? {
      return None;
    }
    PiecesAreMaximal(b, claims, hole.value);
    TakeFreeIsLowest(b, claims, length);
    return Some(Corner(hole.value, length));
  }

  /** The parent record with one more claimed child. */
  function Claimed(parent: Prefix, child: Block): Prefix {
    parent.(children := parent.children[child := false], isParent := true)
  }

  /** The checks and the search of acquireChildPrefixInternal, up to the parent's update. */
  method ChooseChild(parent: Prefix, want: Want) returns (r: Result<Block, Error>)
    requires want.OfLength? ==> want.length <= Width(parent.cidr.family)
    ensures r.Err? ==> ClaimChild(parent, want) == Err(r.error)
    ensures r.Ok? ==> ClaimChild(parent, want) == Ok((Claimed(parent, r.value), Child(r.value)))
  {
    var length := if want.OfLength? then want.length else want.cidr.Len();
    if parent.cidr.Len() >= length {
      return Err(LengthNotGreater);
    }
    if HasIps(parent) {
      return Err(HasAddresses);
    }
    var claims := CollectClaims(parent.children);
    if want.OfLength? {
      var found := RemoveFreePrefix(parent.cidr, claims, length);
      if found.None? {
        return Err(NoPrefixLeft);
      }
      return Ok(found.value);
    }
    if !(Within(want.cidr, parent.cidr) && Untouched(want.cidr, claims)) {
      return Err(ChildNotAvailable);
    }
    return Ok(want.cidr);
  }

  // ---- The object

  class Ipamer {
    const storage: Memory
    const namespace: string

    constructor (storage: Memory, namespace: string)
      ensures this.storage == storage && this.namespace == namespace
    {
      this.storage := storage;
      this.namespace := namespace;
    }

    method NewPrefix(cidr: Block) returns (r: Result<Outcome, Error>)
      requires Filed(View(storage.prefixes, namespace))
      modifies storage
      ensures Performs(old(storage.prefixes), storage.prefixes, namespace, Request.NewPrefix(cidr), r)
    {
      var existing := storage.ReadAllPrefixCidrs(namespace);
      var overlap := AnyOverlap(existing, cidr);
      if overlap {
        return Err(Overlapping);
      }
      assert cidr !in View(storage.prefixes, namespace) by {
        assert Overlaps(cidr, cidr);
      }
      var created := storage.CreatePrefix(Fresh(cidr, None), namespace);
      return Ok(Done);
    }

    method DeletePrefix(cidr: Block) returns (r: Result<Outcome, Error>)
      requires Filed(View(storage.prefixes, namespace))
      modifies storage
      ensures Performs(old(storage.prefixes), storage.prefixes, namespace, Request.DeletePrefix(cidr), r)
    {
      var p := storage.ReadPrefix(cidr, namespace);
      if p.Err? {
        return Err(NotFound);
      }
      if HasIps(p.value) {
        return Err(HasAddresses);
      }
      var _ := storage.DeletePrefix(p.value, namespace);
      return Ok(Done);
    }

    method AcquireChildPrefix(parentCidr: Block, want: Want) returns (r: Result<Outcome, Error>)
      requires Filed(View(storage.prefixes, namespace))
      requires want.OfLength? ==> want.length <= Width(parentCidr.family)
      modifies storage
      ensures Performs(old(storage.prefixes), storage.prefixes, namespace, Swap(AcquireChild(parentCidr, want)), r)
      ensures r.Ok? && want.OfLength? ==>
                var before := old(View(storage.prefixes, namespace));
                && parentCidr in before && r.value.Child?
                && LowestFit(parentCidr, Claims(before[parentCidr]), want.length, r.value.child)
    {
      var read := storage.ReadPrefix(parentCidr, namespace);
      if read.Err? {
        return Err(NotFound);
      }
      var parent := read.value;
      var chosen := ChooseChild(parent, want);
      if chosen.Err? {
        return Err(chosen.error);
      }
      var child := chosen.value;
      if want.OfLength? {
        ClaimIsLowest(parent, want.length);
      }
      parent := Claimed(parent, child);
      var updated := storage.UpdatePrefix(parent, namespace);
      var created := storage.CreatePrefix(Fresh(child, Some(parentCidr)), namespace);
      if created.Err? {
        return Err(AlreadyCreated);
      }
      return Ok(Child(child));
    }

    method ReleaseChildPrefix(child: Handle) returns (r: Result<Outcome, Error>)
      requires Filed(View(storage.prefixes, namespace))
      modifies storage
      ensures Performs(old(storage.prefixes), storage.prefixes, namespace, Release(child), r)
      ensures r == Ok(Done) <==> old(Releasable(View(storage.prefixes, namespace), child))
    {
      ReleaseGrantedIff(View(storage.prefixes, namespace), child);
      if child.parent.None? {
        return Err(NoChildPrefix);
      }
      var read := storage.ReadPrefix(child.parent.value, namespace);
      if read.Err? {
        return Err(NoChildPrefix);
      }
      if child.ipCount > 2 {
        return Err(HasAddresses);
      }
      var parent := read.value.(children := read.value.children[child.child := true]);
      var deleted := DeletePrefix(child.child);
      if deleted.Err? {
        return deleted;
      }
      var updated := storage.UpdatePrefix(parent, namespace);
      if updated.Err? {
        return Err(updated.error);
      }
      return Ok(Done);
    }

    method AcquireSpecificIP(prefixCidr: Block, ip: Option<Addr>) returns (r: Result<Outcome, Error>)
      requires Filed(View(storage.prefixes, namespace))
      modifies storage
      ensures Performs(old(storage.prefixes), storage.prefixes, namespace, Swap(AcquireIp(prefixCidr, ip)), r)
    {
      var read := storage.ReadPrefix(prefixCidr, namespace);
      if read.Err? {
        return Err(NotFound);
      }
      var prefix := read.value;
      if prefix.isParent {
        return Err(HasChildren);
      }
      if ip.Some? {
        if ip.value.family != prefix.cidr.family || !HasAddr(prefix.cidr, ip.value.value) {
          return Err(AddressNotInPrefix);
        }
        if ip.value.value in prefix.ips {
          return Err(AlreadyAllocated);
        }
      }
      var found := FindIp(prefix.cidr, prefix.ips, if ip.Some? then Some(ip.value.value) else None);
      if found.None? {
        return Err(NoIpAvailable);
      }
      prefix := prefix.(ips := prefix.ips + {found.value});
      var updated := storage.UpdatePrefix(prefix, namespace);
      return Ok(Ip(found.value));
    }

    method ReleaseIPFromPrefix(prefixCidr: Block, ip: Addr) returns (r: Result<Outcome, Error>)
      requires Filed(View(storage.prefixes, namespace))
      modifies storage
      ensures Performs(old(storage.prefixes), storage.prefixes, namespace, Swap(ReleaseIp(prefixCidr, ip)), r)
    {
      var read := storage.ReadPrefix(prefixCidr, namespace);
      if read.Err? {
        return Err(NotFound);
      }
      var prefix := read.value;
      if ip.family != prefix.cidr.family || ip.value !in prefix.ips {
        return Err(NotFound);
      }
      prefix := prefix.(ips := prefix.ips - {ip.value});
      var updated := storage.UpdatePrefix(prefix, namespace);
      return Ok(Done);
    }
  }
}
