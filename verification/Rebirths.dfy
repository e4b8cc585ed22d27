/**
 Records created anew. A record starts at version 0 each time, so a client that read it in an
 earlier life can pass the version comparison in a later one, and then writes the old parent
 back. That cannot happen in runs on one parent; otherwise it can, also in careful runs.
 */
module Rebirths {
  import opened Wrappers
  import opened Cidr
  import opened FreeSet
  import opened Prefixes
  import opened Clients
  import opened Children
  import opened Runs
  import opened Orphans
  import Forest

  // ---- Runs on one parent

  /** A client that serves such a request writes `p` only. */
  predicate WorksOn(pc: Pc, p: Block) {
    match pc
    case Read(request, _) => IsOn(request, p)
    case ReadChild(h, _, _) => h.parent == Some(p)
    case RemoveChild(h, _, _) => h.parent == Some(p)
    case Write(request, op, _, _) => IsOn(request, p) && Target(op) == p
    case _ => true
  }

  predicate AllWorkOn(s: State, p: Block) {
    forall c | c in s.clients :: WorksOn(s.clients[c], p)
  }

  lemma StepWorksOn(s: State, e: Event, p: Block)
    requires Valid(s) && ValidEvent(e) && AllWorkOn(s, p) && (e.Invoke? ==> IsOn(e.request, p))
    ensures AllWorkOn(Do(s, e), p)
  {
    var t, c := Do(s, e), e.client;
    if e.Step? && c in s.clients {
      assert ValidPc(s.clients[c]) && WorksOn(s.clients[c], p);
      assert WorksOn(t.clients[c], p);
    }
  }

  lemma {:induction false} WorkOnThroughout(s: State, es: seq<Event>, p: Block)
    requires Quiet(s) && ValidEvents(es) && OnlyOn(es, p)
    ensures AllWorkOn(Exec(s, es), p)
  {
    if es != [] {
      var n := |es| - 1;
      assert es[n] in es;
      WorkOnThroughout(s, es[..n], p);
      StepWorksOn(Exec(s, es[..n]), es[n], p);
    }
  }

  lemma {:induction false} NothingIsRestored(s: State, es: seq<Event>, p: Block)
    requires Quiet(s) && ValidEvents(es) && Undeleted(s, es, p) && OnlyOn(es, p)
    ensures !RestoresDuring(s, es, p)
  {
    if es != [] {
      var n := |es| - 1;
      var t := Exec(s, es[..n]);
      NothingIsRestored(s, es[..n], p);
      WorkOnThroughout(s, es[..n], p);
      assert es[n].Step? && es[n].client in t.clients ==>
               ValidPc(t.clients[es[n].client]) && WorksOn(t.clients[es[n].client], p);
    }
  }

  /** Runs that acquire from one prefix and release under it keep its stored children claimed, if they are careful. */
  lemma OneParentKeepsChildren(s: State, es: seq<Event>, p: Block)
    requires Quiet(s) && ValidEvents(es) && Undeleted(s, es, p) && CarefulRun(s, es, p) && OnlyOn(es, p)
    requires p in s.store && SpaceClaimed(s.store, p) && AboveClaims(s.store, p) && ChildrenClaimed(s.store, p)
    ensures ChildrenStayClaimed(s, es, p)
  {
    NothingIsRestored(s, es, p);
    ChildrenStayClaimedIff(s, es, p);
  }

  // ---- Careful runs, one event and one request at a time

  ghost predicate Goes(s: State, es: seq<Event>, t: State, p: Block) {
    Valid(s) && ValidEvents(es) && Exec(s, es) == t && Undeleted(s, es, p) && CarefulRun(s, es, p)
  }

  lemma GoesOn(s: State, es: seq<Event>, t: State, e: Event, u: State, p: Block)
    requires Goes(s, es, t, p) && ValidEvent(e) && Do(t, e) == u && p in u.store && Careful(t, e, p)
    ensures Goes(s, es + [e], u, p) && Valid(u)
  {
    var all := es + [e];
    assert ValidEvents(all) && all[..|all| - 1] == es;
    ExecLast(s, all, es, e);
  }

  /** A client takes a request for an operation on `k` and reads the record. */
  lemma ReadsFor(s: State, es: seq<Event>, t: State, c: nat, op: Op, p: Block) returns (more: seq<Event>, u: State)
    requires Goes(s, es, t, p) && Free(t, c) && ValidRequest(Swap(op)) && Target(op) in t.store
    requires t.store[Target(op)].cidr == Target(op) && Compute(op, t.store[Target(op)]).Ok?
    ensures Goes(s, more, u, p) && Valid(u)
    ensures u == t.(clients := t.clients[c := Write(Swap(op), op, t.store[Target(op)], 1)])
  {
    var t1 := t.(clients := t.clients[c := Read(Swap(op), 1)]);
    GoesOn(s, es, t, Invoke(c, Swap(op)), t1, p);
    u := t.(clients := t.clients[c := Write(Swap(op), op, t.store[Target(op)], 1)]);
    assert Do(t1, Step(c)) == u;
    GoesOn(s, es + [Invoke(c, Swap(op))], t1, Step(c), u, p);
    more := es + [Invoke(c, Swap(op))] + [Step(c)];
  }

  /** The state after a client has claimed exactly `x` in `k`. */
  lemma Claimed(t: State, c: nat, k: Block, x: Block) returns (u: State)
    requires Valid(t) && k in t.store && !HasIps(t.store[k]) && StrictlyWithin(x, k) && Untouched(x, Claims(t.store[k]))
    ensures var op := AcquireChild(k, Exactly(x));
            && t.store[k].cidr == k && Compute(op, t.store[k]).Ok?
            && var read := t.(clients := t.clients[c := Write(Swap(op), op, t.store[k], 1)]);
               Valid(read) && u == Do(read, Step(c))
    ensures k in u.store && u.store == t.store[k := u.store[k]] && Claims(u.store[k]) == Claims(t.store[k]) + {x}
    ensures u.clients == t.clients[c := Create(x, Some(k))]
  {
    SubBlockInOneHalf(x, k);
    FreeBlockIsGranted(t.store[k], k, x);
    ClaimWrites(t, c, k, Exactly(x));
    ClaimIsFree(t.store[k], Exactly(x));
    u := AfterClaim(t, c, k, Exactly(x));
  }

  lemma Files(s: State, es: seq<Event>, t: State, c: nat, k: Block, x: Block, p: Block) returns (u: State)
    requires Goes(s, es, t, p) && c in t.clients && t.clients[c] == Create(x, Some(k)) && x !in t.store && p in t.store
    ensures Goes(s, es + [Step(c)], u, p) && Valid(u)
    ensures u == t.(store := t.store[x := Fresh(x, Some(k))], clients := t.clients[c := Idle])
  {
    u := t.(store := t.store[x := Fresh(x, Some(k))], clients := t.clients[c := Idle]);
    GoesOn(s, es, t, Step(c), u, p);
  }

  lemma ClaimsIn(s: State, es: seq<Event>, t: State, c: nat, k: Block, x: Block, p: Block)
    returns (more: seq<Event>, u: State)
    requires Goes(s, es, t, p) && Free(t, c) && p in t.store && k in t.store
    requires !HasIps(t.store[k]) && StrictlyWithin(x, k) && Untouched(x, Claims(t.store[k]))
    ensures Goes(s, more, u, p) && u.clients == t.clients[c := Create(x, Some(k))]
    ensures k in u.store && u.store == t.store[k := u.store[k]] && Claims(u.store[k]) == Claims(t.store[k]) + {x}
  {
    u := Claimed(t, c, k, x);
    var read, t1 := ReadsFor(s, es, t, c, AcquireChild(k, Exactly(x)), p);
    GoesOn(s, read, t1, Step(c), u, p);
    more := read + [Step(c)];
  }

  /** A client acquires exactly `x` from `k` and files its record. */
  lemma Acquires(s: State, es: seq<Event>, t: State, c: nat, k: Block, x: Block, p: Block)
    returns (more: seq<Event>, u: State)
    requires Goes(s, es, t, p) && Free(t, c) && p in t.store && k in t.store && x !in t.store
    requires !HasIps(t.store[k]) && StrictlyWithin(x, k) && Untouched(x, Claims(t.store[k]))
    ensures Goes(s, more, u, p) && Valid(u) && u.clients == t.clients[c := Idle]
    ensures k in u.store && Claims(u.store[k]) == Claims(t.store[k]) + {x}
    ensures u.store == t.store[k := u.store[k]][x := Fresh(x, Some(k))]
  {
    var claimed, t2 := ClaimsIn(s, es, t, c, k, x, p);
    u := Files(s, claimed, t2, c, k, x, p);
    more := claimed + [Step(c)];
  }

  /** A release up to where it has read the child. */
  lemma ReadsBoth(s: State, es: seq<Event>, t: State, c: nat, x: Block, p: Block) returns (more: seq<Event>, u: State)
    requires Goes(s, es, t, p) && Free(t, c) && CanRelease(t, x, p)
    ensures Goes(s, more, u, p) && Valid(u)
    ensures u == t.(clients := t.clients[c := RemoveChild(HandleOf(x, p), t.store[p], 1)])
  {
    var h, snap := HandleOf(x, p), t.store[p];
    assert Valid(t) && snap.cidr == p;
    var t1 := t.(clients := t.clients[c := Read(Release(h), 1)]);
    GoesOn(s, es, t, Invoke(c, Release(h)), t1, p);
    var t2 := t.(clients := t.clients[c := ReadChild(h, snap, 1)]);
    assert Do(t1, Step(c)) == t2;
    GoesOn(s, es + [Invoke(c, Release(h))], t1, Step(c), t2, p);
    ReleaseRemoves(t, c, x, p);
    u := t.(clients := t.clients[c := RemoveChild(h, snap, 1)]);
    GoesOn(s, es + [Invoke(c, Release(h))] + [Step(c)], t2, Step(c), u, p);
    more := es + [Invoke(c, Release(h))] + [Step(c)] + [Step(c)];
  }

  lemma Removed(s: State, es: seq<Event>, t: State, c: nat, x: Block, p: Block) returns (more: seq<Event>, u: State)
    requires Goes(s, es, t, p) && Free(t, c) && CanRelease(t, x, p) && Hollow(t, x)
    ensures Goes(s, more, u, p) && Valid(u)
    ensures u == t.(store := t.store - {x}, clients := t.clients[c := Releasing(x, p, t.store[p])])
  {
    var read, t3 := ReadsBoth(s, es, t, c, x, p);
    ReleaseRemoves(t, c, x, p);
    u := t.(store := t.store - {x}, clients := t.clients[c := Releasing(x, p, t.store[p])]);
    assert Hollow(t3, x);
    GoesOn(s, read, t3, Step(c), u, p);
    more := read + [Step(c)];
  }

  lemma GivesUp(s: State, es: seq<Event>, t: State, c: nat, x: Block, p: Block) returns (u: State)
    requires Goes(s, es, t, p) && p in t.store && c in t.clients && t.clients[c] == Releasing(x, p, t.store[p])
    ensures Goes(s, es + [Step(c)], u, p) && Valid(u)
    ensures u.store == t.store[p := GivenUp(t.store[p], x)] && u.clients == t.clients[c := Idle]
  {
    assert ValidPc(t.clients[c]);
    u := State(t.store[p := GivenUp(t.store[p], x)], t.clients[c := Idle], t.log + [Entry(ReleaseChild(p, x), Done)]);
    assert Do(t, Step(c)) == u;
    GoesOn(s, es, t, Step(c), u, p);
  }

  /** A client releases a child with nothing in it. */
  lemma Releases(s: State, es: seq<Event>, t: State, c: nat, x: Block, p: Block) returns (more: seq<Event>, u: State)
    requires Goes(s, es, t, p) && Free(t, c) && CanRelease(t, x, p) && Hollow(t, x)
    ensures Goes(s, more, u, p) && Valid(u) && u.clients == t.clients[c := Idle]
    ensures u.store == (t.store - {x})[p := GivenUp(t.store[p], x)]
  {
    var gone, t4 := Removed(s, es, t, c, x, p);
    u := GivesUp(s, gone, t4, c, x, p);
    more := gone + [Step(c)];
  }

  // ---- A write from an earlier life

  /** `x` is a new child of `p` with nothing in it, and `p` could grant the block `q` around it but for `x`. */
  predicate NewChild(s: State, p: Block, q: Block, x: Block) {
    && Quiet(s) && p in s.store && x in s.store && q !in s.store
    && x in Claims(s.store[p]) && s.store[x] == Fresh(x, Some(p)) && (forall z | z in s.store :: !StrictlyWithin(z, x))
    && StrictlyWithin(x, q) && StrictlyWithin(q, p) && Untouched(q, Claims(s.store[p]) - {x})
  }

  /** The child is released, */
  lemma ChildIsReleased(s: State, es: seq<Event>, t: State, p: Block, q: Block, x: Block, pc: Pc)
    returns (more: seq<Event>, u: State)
    requires NewChild(s, p, q, x) && Goes(s, es, t, p) && t == s.(clients := map[0 := pc]) && pc.Write?
    ensures Goes(s, more, u, p) && Valid(u) && u.clients == map[0 := pc][1 := Idle]
    ensures p in u.store && x !in u.store && q !in u.store && !HasIps(u.store[p])
    ensures x !in Claims(u.store[p]) && Untouched(q, Claims(u.store[p]))
  {
    assert Sound(s.store[p]) && s.store[p].cidr == p;
    more, u := Releases(s, es, t, 1, x, p);
    GivenUpClaims(s.store[p], x);
  }

  /** and acquired again, from a block acquired around it. */
  lemma ChildIsReborn(s: State, es: seq<Event>, t: State, p: Block, q: Block, x: Block, pc: Pc)
    returns (more: seq<Event>, u: State)
    requires Goes(s, es, t, p) && Valid(t) && t.clients == map[0 := pc][1 := Idle]
    requires p in t.store && x !in t.store && q !in t.store && !HasIps(t.store[p])
    requires x !in Claims(t.store[p]) && Untouched(q, Claims(t.store[p])) && StrictlyWithin(x, q)
    requires StrictlyWithin(q, p)
    ensures Goes(s, more, u, p) && Valid(u) && 0 in u.clients && u.clients[0] == pc
    ensures p in u.store && x in u.store && u.store[x] == Fresh(x, Some(q)) && x !in Claims(u.store[p])
  {
    SubBlockInOneHalf(x, q);
    SubBlockInOneHalf(q, p);
    var es2, t2 := Acquires(s, es, t, 1, p, q, p);
    assert t2.store[q] == Fresh(q, Some(p)) && Claims(Fresh(q, Some(p))) == {} && !HasIps(Fresh(q, Some(p)));
    more, u := Acquires(s, es2, t2, 1, q, x, p);
  }

  /**
   A careful run on an undeleted prefix after which a stored child is not claimed. Any
   operation on `x` that its new record allows will do: it reads the first `x` and writes the
   second one, whose parent is then the first one's.
   */
  lemma OldParentComesBack(s: State, p: Block, q: Block, x: Block, op: Op) returns (es: seq<Event>, u: State)
    requires NewChild(s, p, q, x) && ValidRequest(Swap(op)) && Target(op) == x && Compute(op, Fresh(x, Some(p))).Ok?
    ensures Goes(s, es, u, p) && p in u.store
    ensures x in u.store && u.store[x].parent == Some(p) && x !in Claims(u.store[p])
  {
    assert Goes(s, [], s, p);
    var es1, t1 := ReadsFor(s, [], s, 0, op, p);
    var pc := Write(Swap(op), op, Fresh(x, Some(p)), 1);
    var esR, tR := ChildIsReleased(s, es1, t1, p, q, x, pc);
    var es2, t2 := ChildIsReborn(s, esR, tR, p, q, x, pc);
    assert ValidPc(pc);
    ComputeKeepsSound(op, pc.snap);
    u := Do(t2, Step(0));
    assert u == Swapped(t2, 0, pc);
    GoesOn(s, es2, t2, Step(0), u, p);
    es := es2 + [Step(0)];
  }

  /** What is stored after a new prefix has granted a child. */
  lemma FirstChild(p: Block, x: Block) returns (store: Store)
    requires StrictlyWithin(x, p) && x != p
    ensures Forest.Filed(map[p := Fresh(p, None)])
    ensures store == Forest.Apply(map[p := Fresh(p, None)], Forest.Acquire(p, x)).0
    ensures Forest.IsForest(store) && store.Keys == {p, x} && Claims(store[p]) == {x} && store[x] == Fresh(x, Some(p))
  {
    var first := map[p := Fresh(p, None)];
    FreshIsSound(p, None);
    Forest.FirstGrant(first, p, x);
    Forest.SwapKeepsForest(first, AcquireChild(p, Exactly(x)));
    store := Forest.Apply(first, Forest.Acquire(p, x)).0;
  }

  /** That is where such a run starts, for any three nested blocks; it is a forest. */
  lemma NewChildIsReachable(p: Block, q: Block, x: Block) returns (s: State)
    requires StrictlyWithin(x, q) && StrictlyWithin(q, p)
    ensures Forest.Filed(map[p := Fresh(p, None)])
    ensures s.store == Forest.Apply(map[p := Fresh(p, None)], Forest.Acquire(p, x)).0
    ensures Forest.IsForest(s.store) && NewChild(s, p, q, x)
  {
    WithinTransitive(x, q, p);
    SubBlockInOneHalf(x, q);
    SubBlockInOneHalf(q, p);
    var store := FirstChild(p, x);
    s := State(store, map[], []);
  }
}
