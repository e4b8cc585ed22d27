/**
 Where `Children` applies and where it does not. Its start condition holds at every prefix of
 a forest, whatever its depth. Its guard is needed: the allocator does not look below a child
 it releases, and a record left behind there can end up stored but not claimed.
 */
module Orphans {
  import opened Wrappers
  import opened Cidr
  import opened FreeSet
  import opened Prefixes
  import opened Clients
  import opened Children
  import opened Runs
  import Forest

  /**
   Every prefix of a forest claims what lies inside it, its children themselves, and is claimed by
   what is around it.
   */
  lemma ForestsStartOrderly(store: Store, p: Block)
    requires Forest.IsForest(store) && p in store
    ensures SpaceClaimed(store, p) && AboveClaims(store, p) && ChildrenClaimed(store, p)
  {
    forall z | z in store && StrictlyWithin(z, p)
      ensures Covered(z, Claims(store[p]))
    {
      Forest.ContainmentIsAncestry(store, z, p);
      var c := Forest.ChildTowards(store, p, z);
    }
    forall q | q in store && StrictlyWithin(p, q)
      ensures Covered(p, Claims(store[q]))
    {
      Forest.ContainmentIsAncestry(store, p, q);
      var c := Forest.ChildTowards(store, q, p);
    }
  }

  /** `p` claims `y` and `y` claims `x`; all three are stored, and `x` has no addresses. */
  predicate ThreeLevels(s: State, p: Block, y: Block, x: Block) {
    && Quiet(s) && p in s.store && y in s.store && x in s.store
    && y in Claims(s.store[p]) && x in Claims(s.store[y]) && !HasIps(s.store[x])
  }

  lemma LevelsNest(s: State, p: Block, y: Block, x: Block)
    requires ThreeLevels(s, p, y, x)
    ensures StrictlyWithin(x, p) && x != y && y != p && p.Len() < x.Len()
    ensures !HasIps(s.store[y]) && !HasIps(s.store[p])
    ensures Untouched(x, Claims(s.store[p]) - {y})
  {
    WithinTransitive(x, y, p);
    SubBlockInOneHalf(x, y);
    SubBlockInOneHalf(y, p);
    forall c | c in Claims(s.store[p]) - {y}
      ensures !Overlaps(x, c)
    {
      WithinTransitive(c, x, y);
      SharedSubBlock(x, c, y);
    }
  }

  /** Releasing `y` leaves `x` behind, and its space is free for `p` again. */
  lemma ReleaseLeavesOrphan(s: State, p: Block, y: Block, x: Block) returns (es: seq<Event>, t: State)
    requires ThreeLevels(s, p, y, x)
    ensures Reaches(s, es, t, p) && t.clients == map[0 := Idle]
    ensures p in t.store && x in t.store && t.store[x] == s.store[x] && t.store[p].cidr == p
    ensures Claims(t.store[p]) == Claims(s.store[p]) - {y} && !HasIps(t.store[p])
  {
    LevelsNest(s, p, y, x);
    Start(s, p);
    var half := ReleaseHalfWay(s, [], s, 0, y, p);
    var u := s.(store := s.store - {y}, clients := s.clients[0 := Releasing(y, p, s.store[p])]);
    ReachedIsValid(s, half, u, p);
    es := ReleaseCommits(s, half, u, 0, y, p);
    t := State(u.store[p := GivenUp(u.store[p], y)], u.clients[0 := Idle], u.log + [Entry(ReleaseChild(p, y), Done)]);
    GivenUpClaims(s.store[p], y);
  }

  /** A free block inside a prefix without addresses is granted. */
  lemma FreeBlockIsGranted(r: Prefix, p: Block, x: Block)
    requires r.cidr == p && Sound(r) && !HasIps(r) && StrictlyWithin(x, p) && p.Len() < x.Len()
    requires Untouched(x, Claims(r))
    ensures ClaimChild(r, Exactly(x)).Ok? && ClaimChild(r, Exactly(x)).value.1 == Child(x)
    ensures x in Claims(ClaimChild(r, Exactly(x)).value.0)
  {
    ClaimIsFree(r, Exactly(x));
  }

  /**
   With three clients, and with nothing but acquiring from `p` and releasing under it, a child
   of `p` ends up stored and not claimed, so that its space can be handed out again.
   */
  lemma OrphanEndsUnclaimed(s: State, p: Block, y: Block, x: Block) returns (es: seq<Event>, t: State)
    requires ThreeLevels(s, p, y, x)
    ensures Reaches(s, es, t, p) && p in t.store
    ensures x in t.store && t.store[x].parent == Some(p) && x !in Claims(t.store[p])
  {
    LevelsNest(s, p, y, x);
    var es1, t1 := ReleaseLeavesOrphan(s, p, y, x);
    ReachedIsValid(s, es1, t1, p);
    FreeBlockIsGranted(t1.store[p], p, x);
    var es2 := ClaimCommits(s, es1, t1, 1, p, Exactly(x));
    var t2 := AfterClaim(t1, 1, p, Exactly(x));
    es, t := LateRelease(s, es2, t2, p, x);
  }

  /** The orphan's record is removed for the new claim, which is then created and given up. */
  lemma LateRelease(s: State, es: seq<Event>, t: State, p: Block, x: Block) returns (more: seq<Event>, u: State)
    requires Reaches(s, es, t, p) && p in t.store && x in t.store && x != p && !HasIps(t.store[x])
    requires Free(t, 2) && 1 in t.clients && t.clients[1] == Create(x, Some(p))
    ensures Reaches(s, more, u, p) && p in u.store
    ensures x in u.store && u.store[x].parent == Some(p) && x !in Claims(u.store[p])
  {
    ReachedIsValid(s, es, t, p);
    var es3 := ReleaseHalfWay(s, es, t, 2, x, p);
    var t3 := t.(store := t.store - {x}, clients := t.clients[2 := Releasing(x, p, t.store[p])]);
    ReachedIsValid(s, es3, t3, p);
    var es4 := CreateFiles(s, es3, t3, 1, x, p);
    var t4 := t3.(store := t3.store[x := Fresh(x, Some(p))], clients := t3.clients[1 := Idle]);
    ReachedIsValid(s, es4, t4, p);
    more := ReleaseCommits(s, es4, t4, 2, x, p);
    u := State(t4.store[p := GivenUp(t4.store[p], x)], t4.clients[2 := Idle],
               t4.log + [Entry(ReleaseChild(p, x), Done)]);
  }
}
