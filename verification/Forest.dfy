/**
 Requests run one at a time on the prefixes of a namespace. Stored prefixes form a forest:
 they overlap only along ancestry, and the claims of a prefix are exactly its stored
 children, as long as prefixes with live children are not taken away.
 */
module Forest {
  import opened Wrappers
  import opened Cidr
  import opened FreeSet
  import opened Prefixes
  import opened Clients

  /** What a request leaves in the store and returns, when nothing else runs. */
  function Apply(store: Store, request: Request): (Store, Result<Outcome, Error>)
    requires Filed(store) && ValidRequest(request)
  {
    match request
    case Swap(op) => ApplySwap(store, op)
    case Release(h) => ApplyRelease(store, h)
    case NewPrefix(cidr) =>
      if OverlapsStored(store, cidr) then (store, Err(Overlapping))
      else (store[cidr := Fresh(cidr, None)], Ok(Done))
    case DeletePrefix(cidr) =>
      if cidr !in store then (store, Err(NotFound))
      else if HasIps(store[cidr]) then (store, Err(HasAddresses))
      else (store - {cidr}, Ok(Done))
  }

  function ApplySwap(store: Store, op: Op): (Store, Result<Outcome, Error>)
    requires Filed(store) && WellFormed(op)
  {
    var key := Target(op);
    if key !in store then (store, Err(NotFound))
    else
      var r := Compute(op, store[key]);
      if r.Err? then (store, Err(r.error))
      else
        var updated := store[key := Commit(r.value.0)];
        if !r.value.1.Child? then (updated, Ok(r.value.1))
        else if r.value.1.child in updated then (updated, Err(AlreadyCreated))
        else (updated[r.value.1.child := Fresh(r.value.1.child, Some(key))], Ok(r.value.1))
  }

  function ApplyRelease(store: Store, h: Handle): (Store, Result<Outcome, Error>)
    requires Filed(store)
  {
    if h.parent.None? || h.parent.value !in store then (store, Err(NoChildPrefix))
    else if h.ipCount > 2 then (store, Err(HasAddresses))
    else if h.child !in store then (store, Err(NotFound))
    else if HasIps(store[h.child]) then (store, Err(HasAddresses))
    else
      var removed, key := store - {h.child}, h.parent.value;
      if key !in removed then (removed, Err(NotFound))
      else (removed[key := Commit(store[key].(children := store[key].children[h.child := true]))], Ok(Done))
  }

  predicate Filed(store: Store) {
    forall k | k in store :: store[k].cidr == k && Sound(store[k])
  }

  lemma FiledUpdate(store: Store, k: Block, rec: Prefix)
    requires Filed(store) && rec.cidr == k && Sound(rec)
    ensures Filed(store[k := rec])
  {
  }

  predicate IsRoot(store: Store, k: Block)
    requires k in store
  {
    store[k].parent.None?
  }

  predicate ParentsClaim(store: Store) {
    forall k | k in store && store[k].parent.Some? ::
      store[k].parent.value in store && k in Claims(store[store[k].parent.value])
  }

  predicate ClaimsStored(store: Store) {
    forall q, c | q in store && c in Claims(store[q]) :: c in store && store[c].parent == Some(q)
  }

  predicate RootsApart(store: Store) {
    forall k, l | k in store && l in store && k != l && IsRoot(store, k) && IsRoot(store, l) :: !Overlaps(k, l)
  }

  predicate IsForest(store: Store) {
    Filed(store) && ParentsClaim(store) && ClaimsStored(store) && RootsApart(store)
  }

  function ParentOf(store: Store, k: Block): (q: Block)
    requires IsForest(store) && k in store && store[k].parent.Some?
    ensures q in store && k in Claims(store[q]) && StrictlyWithin(k, q) && q.Len() < k.Len()
  {
    SubBlockInOneHalf(k, store[k].parent.value);
    store[k].parent.value
  }

  /** `a` is reached from `d` by following parents. */
  predicate Ancestor(store: Store, a: Block, d: Block)
    requires IsForest(store) && d in store
    decreases d.Len()
  {
    store[d].parent.Some? && (ParentOf(store, d) == a || Ancestor(store, a, ParentOf(store, d)))
  }

  lemma {:induction false} AncestorsContain(store: Store, a: Block, d: Block)
    requires IsForest(store) && d in store && Ancestor(store, a, d)
    ensures a in store && StrictlyWithin(d, a)
    decreases d.Len()
  {
    var q := ParentOf(store, d);
    if q != a {
      AncestorsContain(store, a, q);
      WithinTransitive(d, q, a);
    }
  }

  /** A descendant lies in a child of its ancestor. */
  lemma {:induction false} ChildTowards(store: Store, a: Block, d: Block) returns (c: Block)
    requires IsForest(store) && a in store && d in store && Ancestor(store, a, d)
    ensures c in Claims(store[a]) && Within(d, c)
    decreases d.Len()
  {
    var q := ParentOf(store, d);
    if q == a {
      c := d;
    } else {
      c := ChildTowards(store, a, q);
      WithinTransitive(d, q, c);
    }
  }

  /** Nothing stored strictly contains a root. */
  lemma {:induction false} RootIsOutermost(store: Store, x: Block, y: Block)
    requires IsForest(store) && x in store && y in store && IsRoot(store, x)
    ensures !StrictlyWithin(x, y)
    decreases y.Len()
  {
    if !IsRoot(store, y) {
      var q := ParentOf(store, y);
      RootIsOutermost(store, x, q);
      WithinTransitive(x, y, q);
    }
  }

  /** A block inside a descendant of `q` is not itself a different child of `q`. */
  lemma ChildrenDoNotNest(store: Store, q: Block, x: Block, y: Block)
    requires IsForest(store) && q in store && x in Claims(store[q]) && y in store && Ancestor(store, q, y)
    ensures !StrictlyWithin(x, y)
  {
    var c := ChildTowards(store, q, y);
    WithinTransitive(x, y, c);
    assert c != x ==> !Overlaps(x, c);
  }

  /** A stored prefix inside another has it as an ancestor. */
  lemma {:induction false} ContainmentIsAncestry(store: Store, x: Block, y: Block)
    requires IsForest(store) && x in store && y in store && StrictlyWithin(x, y)
    ensures Ancestor(store, y, x)
    decreases x.Len() + y.Len()
  {
    if IsRoot(store, x) {
      RootIsOutermost(store, x, y);
    } else {
      var q := ParentOf(store, x);
      SharedSubBlock(x, q, y);
      if q != y {
        if Within(q, y) {
          ContainmentIsAncestry(store, q, y);
        } else {
          ContainmentIsAncestry(store, y, q);
          ChildrenDoNotNest(store, q, x, y);
        }
      }
    }
  }

  /** Two stored prefixes overlap exactly when one is the other or an ancestor of it. */
  lemma OverlapIffAncestry(store: Store, x: Block, y: Block)
    requires IsForest(store) && x in store && y in store
    ensures Overlaps(x, y) <==> x == y || Ancestor(store, x, y) || Ancestor(store, y, x)
  {
    if StrictlyWithin(x, y) {
      ContainmentIsAncestry(store, x, y);
    }
    if StrictlyWithin(y, x) {
      ContainmentIsAncestry(store, y, x);
    }
    if Ancestor(store, x, y) {
      AncestorsContain(store, x, y);
    }
    if Ancestor(store, y, x) {
      AncestorsContain(store, y, x);
    }
  }

  // ---- What a disciplined request keeps

  /** The child has no live children, and the handle names its parent unless it has none. */
  predicate MayRelease(store: Store, h: Handle)
    requires h.child in store
  {
    Claims(store[h.child]) == {} && store[h.child].parent in {None, h.parent}
  }

  /** Nothing with live children is taken away, and children leave only through their release. */
  predicate Disciplined(store: Store, request: Request) {
    && (request.Release? && request.handle.child in store ==> MayRelease(store, request.handle))
    && (request.DeletePrefix? && request.cidr in store ==>
          IsRoot(store, request.cidr) && Claims(store[request.cidr]) == {})
  }

  /** A block that a prefix can still claim is not stored. */
  lemma FreeBlockIsNotStored(store: Store, p: Block, x: Block)
    requires IsForest(store) && p in store && StrictlyWithin(x, p) && Untouched(x, Claims(store[p]))
    ensures x !in store
  {
    if x in store {
      ContainmentIsAncestry(store, x, p);
      var c := ChildTowards(store, p, x);
      assert Overlaps(x, c);
    }
  }

  /** `after` differs from `store` at `p`, whose claims become `claims`, and in whether `x` is there. */
  ghost predicate Changed(store: Store, after: Store, p: Block, x: Block, claims: set<Block>) {
    && p in store && p in after && p != x
    && after[p].parent == store[p].parent && Claims(after[p]) == claims
    && (forall k | k != p && k != x :: k in after <==> k in store)
    && (forall k | k in store && k in after && k != p && k != x :: after[k] == store[k])
  }

  lemma GrantKeepsParents(store: Store, after: Store, p: Block, x: Block)
    requires ParentsClaim(store) && x !in store && x in after
    requires p in store && Changed(store, after, p, x, Claims(store[p]) + {x})
    requires after[x].parent == Some(p)
    ensures ParentsClaim(after)
  {
    forall k | k in after && after[k].parent.Some?
      ensures after[k].parent.value in after && k in Claims(after[after[k].parent.value])
    {
      if k != x {
        assert k in store && store[k].parent == after[k].parent;
      }
    }
  }

  lemma GrantKeepsClaims(store: Store, after: Store, p: Block, x: Block)
    requires ClaimsStored(store) && x !in store && x in after
    requires p in store && Changed(store, after, p, x, Claims(store[p]) + {x})
    requires after[x].parent == Some(p) && Claims(after[x]) == {}
    ensures ClaimsStored(after)
  {
    forall q, c | q in after && c in Claims(after[q])
      ensures c in after && after[c].parent == Some(q)
    {
      if c != x {
        assert q in store && c in Claims(store[q]);
      }
    }
  }

  lemma ReleaseKeepsParents(store: Store, after: Store, p: Block, x: Block)
    requires ParentsClaim(store) && ClaimsStored(store) && x in store && x !in after
    requires p in store && Changed(store, after, p, x, Claims(store[p]) - {x}) && Claims(store[x]) == {}
    ensures ParentsClaim(after)
  {
    forall k | k in after && after[k].parent.Some?
      ensures after[k].parent.value in after && k in Claims(after[after[k].parent.value])
    {
      assert k in store && store[k].parent == after[k].parent;
    }
  }

  lemma ReleaseKeepsClaims(store: Store, after: Store, p: Block, x: Block)
    requires ClaimsStored(store) && x in store && x !in after
    requires p in store && Changed(store, after, p, x, Claims(store[p]) - {x}) && store[x].parent == Some(p)
    ensures ClaimsStored(after)
  {
    forall q, c | q in after && c in Claims(after[q])
      ensures c in after && after[c].parent == Some(q)
    {
      assert q in store && c in Claims(store[q]);
      assert store[c].parent == Some(q);
    }
  }

  lemma ChangeKeepsRoots(store: Store, after: Store, p: Block, x: Block, claims: set<Block>)
    requires RootsApart(store) && Changed(store, after, p, x, claims)
    requires x in after ==> after[x].parent.Some?
    ensures RootsApart(after)
  {
    assert forall k | k in after && IsRoot(after, k) :: k in store && IsRoot(store, k);
  }

  lemma GrantKeepsForest(store: Store, after: Store, p: Block, next: Prefix, x: Block)
    requires IsForest(store) && p in store && p != x && x !in store
    requires Sound(next) && next.cidr == p && next.parent == store[p].parent && Claims(next) == Claims(store[p]) + {x}
    requires after == store[p := next][x := Fresh(x, Some(p))]
    ensures IsForest(after)
  {
    FreshIsSound(x, Some(p));
    FiledUpdate(store, p, next);
    FiledUpdate(store[p := next], x, Fresh(x, Some(p)));
    assert Changed(store, after, p, x, Claims(store[p]) + {x});
    GrantKeepsParents(store, after, p, x);
    GrantKeepsClaims(store, after, p, x);
    ChangeKeepsRoots(store, after, p, x, Claims(next));
  }

  lemma UpdateKeepsForest(store: Store, p: Block, next: Prefix)
    requires IsForest(store) && p in store
    requires Sound(next) && next.cidr == p && next.parent == store[p].parent && Claims(next) == Claims(store[p])
    ensures IsForest(store[p := next])
  {
  }

  lemma SwapKeepsForest(store: Store, op: Op)
    requires IsForest(store) && WellFormed(op) && !op.ReleaseChild?
    ensures IsForest(ApplySwap(store, op).0)
    ensures op.AcquireChild? ==> ApplySwap(store, op).1 != Err(AlreadyCreated)
  {
    var p := Target(op);
    if p in store && Compute(op, store[p]).Ok? {
      var (next, outcome) := Compute(op, store[p]).value;
      ComputeKeepsSound(op, store[p]);
      CommitKeepsSound(next);
      if op.AcquireChild? {
        ClaimIsFree(store[p], op.want);
        FreeBlockIsNotStored(store, p, outcome.child);
        GrantKeepsForest(store, ApplySwap(store, op).0, p, Commit(next), outcome.child);
      } else {
        assert Claims(next) == Claims(store[p]);
        UpdateKeepsForest(store, p, Commit(next));
      }
    }
  }

  lemma CommitKeepsSound(p: Prefix)
    requires Sound(p)
    ensures Sound(Commit(p)) && Claims(Commit(p)) == Claims(p)
  {
    assert Claims(Commit(p)) == Claims(p);
  }

  /** A live child left behind by its parent. */
  lemma OrphanBreaksForest(store: Store, after: Store, x: Block, c: Block)
    requires IsForest(store) && x in store && c in Claims(store[x])
    requires x !in after && c in after && after[c].parent == store[c].parent
    ensures !IsForest(after)
  {
    assert store[c].parent == Some(x);
  }

  /**
   A granted release keeps the forest exactly when the child has no live children and the
   handle names its parent, or the child has none. The handle is the caller's, and may be old.
   */
  lemma ReleaseKeepsForestIff(store: Store, h: Handle)
    requires IsForest(store) && ApplyRelease(store, h).1.Ok?
    ensures IsForest(ApplyRelease(store, h).0) <==> MayRelease(store, h)
  {
    var after, p, x := ApplyRelease(store, h).0, h.parent.value, h.child;
    var next := Commit(store[p].(children := store[p].children[x := true]));
    assert x != p && p in store && x in store && after == (store - {x})[p := next];
    ReleaseComputes(store[p], x);
    if Claims(store[x]) != {} {
      var c :| c in Claims(store[x]);
      LiveChildIsLeft(store, after, p, x, c, next);
    } else if store[x].parent == Some(p) {
      ReleasedStoreIsForest(store, after, p, x, next);
    } else if store[x].parent.None? {
      RootReleasedIsForest(store, after, p, x, next);
    } else {
      ClaimIsLeft(store, after, p, x, next);
    }
  }

  lemma LiveChildIsLeft(store: Store, after: Store, p: Block, x: Block, c: Block, next: Prefix)
    requires IsForest(store) && x in store && p in store && x != p && c in Claims(store[x])
    requires next.parent == store[p].parent
    requires after == (store - {x})[p := next]
    ensures !IsForest(after)
  {
    assert c in store && StrictlyWithin(c, x);
    OrphanBreaksForest(store, after, x, c);
  }

  /** Another prefix than the one in the handle goes on claiming the child. */
  lemma ClaimIsLeft(store: Store, after: Store, p: Block, x: Block, next: Prefix)
    requires IsForest(store) && x in store && p in store && x != p && store[x].parent.Some?
    requires store[x].parent != Some(p)
    requires after == (store - {x})[p := next]
    ensures !IsForest(after)
  {
    var q := ParentOf(store, x);
    assert q in after && after[q] == store[q] && x in Claims(after[q]) && x !in after;
  }

  lemma NotClaimed(store: Store, p: Block, x: Block)
    requires ClaimsStored(store) && p in store && x in store && IsRoot(store, x)
    ensures x !in Claims(store[p])
  {
  }

  lemma RootReleasedIsForest(store: Store, after: Store, p: Block, x: Block, next: Prefix)
    requires IsForest(store) && p in store && x in store && x != p && IsRoot(store, x) && Claims(store[x]) == {}
    requires Sound(next) && next.cidr == p && next.parent == store[p].parent && Claims(next) == Claims(store[p]) - {x}
    requires after == (store - {x})[p := next]
    ensures IsForest(after)
  {
    NotClaimed(store, p, x);
    DeletedStoreIsForest(store, x);
    var without := store - {x};
    assert without[p] == store[p];
    UpdateKeepsForest(without, p, next);
  }

  lemma ReleaseComputes(r: Prefix, x: Block)
    requires Sound(r)
    ensures var next := Commit(r.(children := r.children[x := true]));
            Sound(next) && Claims(next) == Claims(r) - {x}
  {
    var next := Commit(r.(children := r.children[x := true]));
    assert Claims(next) == Claims(r) - {x};
  }

  lemma ReleasedStoreIsForest(store: Store, after: Store, p: Block, x: Block, next: Prefix)
    requires IsForest(store) && p in store && x in store && x != p && store[x].parent == Some(p)
    requires Claims(store[x]) == {}
    requires Sound(next) && next.cidr == p && next.parent == store[p].parent && Claims(next) == Claims(store[p]) - {x}
    requires after == (store - {x})[p := next]
    ensures IsForest(after)
  {
    ReleaseKeepsParents(store, after, p, x);
    ReleaseKeepsClaims(store, after, p, x);
    ChangeKeepsRoots(store, after, p, x, Claims(next));
  }

  lemma DeletedStoreIsForest(store: Store, cidr: Block)
    requires IsForest(store) && cidr in store && IsRoot(store, cidr) && Claims(store[cidr]) == {}
    ensures IsForest(store - {cidr})
  {
    var after := store - {cidr};
    forall k | k in after && after[k].parent.Some?
      ensures after[k].parent.value in after
    {
      assert k in Claims(store[store[k].parent.value]);
    }
    forall q, c | q in after && c in Claims(after[q])
      ensures c in after
    {
      assert store[c].parent == Some(q);
    }
  }

  /** A granted deletion keeps the forest exactly when it takes a root without live children. */
  lemma DeleteKeepsForestIff(store: Store, cidr: Block)
    requires IsForest(store) && Apply(store, DeletePrefix(cidr)).1.Ok?
    ensures IsForest(Apply(store, DeletePrefix(cidr)).0) <==> IsRoot(store, cidr) && Claims(store[cidr]) == {}
  {
    var after := store - {cidr};
    if Claims(store[cidr]) != {} {
      var c :| c in Claims(store[cidr]);
      assert c in store && StrictlyWithin(c, cidr);
      OrphanBreaksForest(store, after, cidr, c);
    } else if !IsRoot(store, cidr) {
      var q := ParentOf(store, cidr);
      assert q in after && cidr in Claims(after[q]);
    } else {
      DeletedStoreIsForest(store, cidr);
    }
  }

  lemma NewRootKeepsLinks(store: Store, after: Store, cidr: Block, rec: Prefix)
    requires ParentsClaim(store) && ClaimsStored(store) && cidr !in store
    requires rec.parent.None? && Claims(rec) == {} && after == store[cidr := rec]
    ensures ParentsClaim(after) && ClaimsStored(after)
  {
    forall k | k in after && after[k].parent.Some?
      ensures after[k].parent.value in after && k in Claims(after[after[k].parent.value])
    {
      assert k in store;
    }
    forall q, c | q in after && c in Claims(after[q])
      ensures c in after && after[c].parent == Some(q)
    {
      assert q in store && c in store;
    }
  }

  lemma NewRootKeepsRoots(store: Store, after: Store, cidr: Block, rec: Prefix)
    requires RootsApart(store) && cidr !in store && !OverlapsStored(store, cidr) && after == store[cidr := rec]
    ensures RootsApart(after)
  {
    forall k | k in store
      ensures !Overlaps(k, cidr) && !Overlaps(cidr, k)
    {
    }
  }

  lemma NewPrefixKeepsForest(store: Store, cidr: Block)
    requires IsForest(store)
    ensures IsForest(Apply(store, NewPrefix(cidr)).0)
  {
    if !OverlapsStored(store, cidr) {
      assert cidr !in store by {
        assert cidr in store ==> Overlaps(cidr, cidr);
      }
      var after, rec := Apply(store, NewPrefix(cidr)).0, Fresh(cidr, None);
      FreshIsSound(cidr, None);
      NewRootKeepsLinks(store, after, cidr, rec);
      NewRootKeepsRoots(store, after, cidr, rec);
    }
  }

  /** A handle that names the child as its own parent can only remove a root. */
  lemma SelfReleaseIsForest(store: Store, h: Handle)
    requires IsForest(store) && h.child in store && h.parent == Some(h.child) && MayRelease(store, h)
    ensures IsForest(ApplyRelease(store, h).0)
  {
    if store[h.child].parent.None? {
      DeletedStoreIsForest(store, h.child);
    }
  }

  lemma DisciplinedKeepsForest(store: Store, request: Request)
    requires IsForest(store) && ValidRequest(request) && Disciplined(store, request)
    ensures IsForest(Apply(store, request).0)
  {
    match request
    case Swap(op) => SwapKeepsForest(store, op);
    case Release(h) =>
      if ApplyRelease(store, h).1.Ok? {
        ReleaseKeepsForestIff(store, h);
      } else if h.child in store && Some(h.child) == h.parent {
        SelfReleaseIsForest(store, h);
      }
    case NewPrefix(cidr) => NewPrefixKeepsForest(store, cidr);
    case DeletePrefix(cidr) =>
      if Apply(store, request).1.Ok? {
        DeleteKeepsForestIff(store, cidr);
      }
  }

  function Run(requests: seq<Request>): (store: Store)
    requires forall r | r in requests :: ValidRequest(r)
    ensures Filed(store)
  {
    if requests == [] then map[]
    else
      var n := |requests| - 1;
      ApplyKeepsFiled(Run(requests[..n]), requests[n]);
      Apply(Run(requests[..n]), requests[n]).0
  }

  lemma SwapKeepsFiled(store: Store, op: Op)
    requires Filed(store) && WellFormed(op)
    ensures Filed(ApplySwap(store, op).0)
  {
    var key := Target(op);
    if key in store && Compute(op, store[key]).Ok? {
      var (next, outcome) := Compute(op, store[key]).value;
      ComputeKeepsSound(op, store[key]);
      CommitKeepsSound(next);
      FiledUpdate(store, key, Commit(next));
      if outcome.Child? {
        FreshIsSound(outcome.child, Some(key));
        FiledUpdate(store[key := Commit(next)], outcome.child, Fresh(outcome.child, Some(key)));
      }
    }
  }

  lemma ReleaseKeepsFiled(store: Store, h: Handle)
    requires Filed(store)
    ensures Filed(ApplyRelease(store, h).0)
  {
    if ApplyRelease(store, h).1.Ok? {
      ReleaseComputes(store[h.parent.value], h.child);
    }
  }

  lemma ApplyKeepsFiled(store: Store, request: Request)
    requires Filed(store) && ValidRequest(request)
    ensures Filed(Apply(store, request).0)
  {
    match request
    case Swap(op) => SwapKeepsFiled(store, op);
    case Release(h) => ReleaseKeepsFiled(store, h);
    case NewPrefix(cidr) => FreshIsSound(cidr, None);
    case DeletePrefix(_) =>
  }

  predicate DisciplinedRun(requests: seq<Request>)
    requires forall r | r in requests :: ValidRequest(r)
  {
    requests == [] || var n := |requests| - 1;
      DisciplinedRun(requests[..n]) && Disciplined(Run(requests[..n]), requests[n])
  }

  /** Every disciplined run from an empty store leaves a forest. */
  lemma {:induction false} RunsLeaveForests(requests: seq<Request>)
    requires forall r | r in requests :: ValidRequest(r)
    requires DisciplinedRun(requests)
    ensures IsForest(Run(requests))
  {
    if requests != [] {
      var n := |requests| - 1;
      RunsLeaveForests(requests[..n]);
      DisciplinedKeepsForest(Run(requests[..n]), requests[n]);
    }
  }

  // ---- An old handle

  /** Releasing a grandchild as if it were a child is granted, and leaves its parent claiming what is gone. */
  lemma OldHandleBreaksForest(store: Store, p: Block, y: Block, x: Block)
    requires IsForest(store) && p in store && y in Claims(store[p]) && x in Claims(store[y])
    requires Claims(store[x]) == {} && !HasIps(store[x])
    ensures var (after, r) := ApplyRelease(store, Handle(x, Some(p), 0));
            r.Ok? && !IsForest(after)
  {
    assert x in store && store[x].parent == Some(y) && y != p;
    WithinTransitive(x, y, p);
    SubBlockInOneHalf(y, p);
    ReleaseKeepsForestIff(store, Handle(x, Some(p), 0));
  }

  lemma RunMore(requests: seq<Request>, request: Request)
    requires (forall r | r in requests :: ValidRequest(r)) && ValidRequest(request)
    ensures forall r | r in requests + [request] :: ValidRequest(r)
    ensures Run(requests + [request]) == Apply(Run(requests), request).0
  {
    assert (requests + [request])[..|requests|] == requests;
  }

  function Acquire(q: Block, x: Block): Request {
    Swap(AcquireChild(q, Exactly(x)))
  }

  /** A prefix without claims and addresses grants any block inside it. */
  lemma FirstGrant(store: Store, q: Block, x: Block)
    requires Filed(store) && q in store && Claims(store[q]) == {} && !HasIps(store[q]) && StrictlyWithin(x, q)
    requires x !in store
    ensures var after := Apply(store, Acquire(q, x)).0;
            && q in after && Claims(after[q]) == {x} && x in after && after[x] == Fresh(x, Some(q))
            && (forall k | k in store && k != q :: k in after && after[k] == store[k])
            && (forall k | k in after :: k in store || k == x)
  {
    SubBlockInOneHalf(x, q);
    ClaimGrantedIff(store[q], Exactly(x));
    ClaimIsFree(store[q], Exactly(x));
    CommittedGrant(store[q], x);
  }

  lemma CommittedGrant(r: Prefix, x: Block)
    requires ClaimChild(r, Exactly(x)).Ok?
    ensures Claims(Commit(ClaimChild(r, Exactly(x)).value.0)) == Claims(r) + {x}
  {
    ClaimIsFree(r, Exactly(x));
  }

  lemma ThreeLevels(p: Block, y: Block, x: Block) returns (s2: Store, s3: Store)
    requires StrictlyWithin(y, p) && StrictlyWithin(x, y)
    ensures Filed(map[p := Fresh(p, None)]) && s2 == Apply(map[p := Fresh(p, None)], Acquire(p, y)).0
    ensures Filed(s2) && s3 == Apply(s2, Acquire(y, x)).0
    ensures IsForest(s3) && p in s3 && y in Claims(s3[p]) && x in Claims(s3[y]) && Claims(s3[x]) == {} && !HasIps(s3[x])
  {
    SubBlockInOneHalf(y, p);
    SubBlockInOneHalf(x, y);
    var s1 := map[p := Fresh(p, None)];
    FreshIsSound(p, None);
    FirstGrant(s1, p, y);
    SwapKeepsForest(s1, AcquireChild(p, Exactly(y)));
    s2 := Apply(s1, Acquire(p, y)).0;
    FirstGrant(s2, y, x);
    SwapKeepsForest(s2, AcquireChild(y, Exactly(x)));
    s3 := Apply(s2, Acquire(y, x)).0;
  }

  /** Such a store is reached by three requests, for any three nested blocks. */
  lemma OldHandleIsReachable(p: Block, y: Block, x: Block)
    requires StrictlyWithin(y, p) && StrictlyWithin(x, y)
    ensures var requests := [NewPrefix(p)] + [Acquire(p, y)] + [Acquire(y, x)];
            && (forall r | r in requests :: ValidRequest(r))
            && IsForest(Run(requests))
            && ApplyRelease(Run(requests), Handle(x, Some(p), 0)).1.Ok?
            && !IsForest(ApplyRelease(Run(requests), Handle(x, Some(p), 0)).0)
  {
    RunMore([], NewPrefix(p));
    assert [] + [NewPrefix(p)] == [NewPrefix(p)];
    RunMore([NewPrefix(p)], Acquire(p, y));
    RunMore([NewPrefix(p)] + [Acquire(p, y)], Acquire(y, x));
    assert Apply(map[], NewPrefix(p)).0 == map[p := Fresh(p, None)];
    var s2, s3 := ThreeLevels(p, y, x);
    OldHandleBreaksForest(s3, p, y, x);
  }
}
