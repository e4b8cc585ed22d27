/**
 Building runs: what the events of one request do when no other client interferes, from any
 state on. Used to show that a state can be reached.
 */
module Runs {
  import opened Wrappers
  import opened Cidr
  import opened Prefixes
  import opened Clients

  /** A request that acquires a child of `p` or releases one. */
  predicate IsOn(r: Request, p: Block) {
    || (r.Swap? && r.op.AcquireChild? && r.op.parent == p)
    || (r.Release? && r.handle.parent == Some(p))
  }

  predicate OnlyOn(es: seq<Event>, p: Block) {
    forall e | e in es && e.Invoke? :: IsOn(e.request, p)
  }

  /** The events lead from `s` to `t`; they are about children of `p`, whose record is there all along. */
  ghost predicate Reaches(s: State, es: seq<Event>, t: State, p: Block) {
    Valid(s) && ValidEvents(es) && Exec(s, es) == t && Undeleted(s, es, p) && OnlyOn(es, p)
  }

  lemma ExecLast(s: State, all: seq<Event>, es: seq<Event>, e: Event)
    requires Valid(s) && ValidEvents(all) && ValidEvents(es) && ValidEvent(e)
    requires all != [] && all[..|all| - 1] == es && all[|all| - 1] == e
    ensures Exec(s, all) == Do(Exec(s, es), e)
  {
  }

  lemma Next(s: State, es: seq<Event>, t: State, e: Event, u: State, p: Block)
    requires Reaches(s, es, t, p) && ValidEvent(e) && Do(t, e) == u && p in u.store
    requires e.Invoke? ==> IsOn(e.request, p)
    ensures Reaches(s, es + [e], u, p)
  {
    var all := es + [e];
    assert ValidEvents(all);
    ExecLast(s, all, es, e);
    assert all[..|all| - 1] == es;
  }

  lemma Start(s: State, p: Block)
    requires Valid(s) && p in s.store
    ensures Reaches(s, [], s, p)
  {
  }

  predicate Free(t: State, c: nat) {
    c !in t.clients || t.clients[c].Idle?
  }

  predicate CanRelease(t: State, x: Block, p: Block) {
    p in t.store && x in t.store && x != p && !HasIps(t.store[x])
  }

  /** The handle of a child without addresses. */
  function HandleOf(x: Block, p: Block): Handle {
    Handle(x, Some(p), 0)
  }

  function Releasing(x: Block, p: Block, snap: Prefix): Pc {
    Write(Release(HandleOf(x, p)), ReleaseChild(p, x), snap, 1)
  }

  /** A release up to where it has read the parent. */
  lemma ReleaseReads(s: State, es: seq<Event>, t: State, c: nat, x: Block, p: Block) returns (more: seq<Event>)
    requires Reaches(s, es, t, p) && Valid(t) && Free(t, c) && CanRelease(t, x, p)
    ensures Reaches(s, more, t.(clients := t.clients[c := ReadChild(HandleOf(x, p), t.store[p], 1)]), p)
  {
    var request := Release(HandleOf(x, p));
    var t1 := t.(clients := t.clients[c := Read(request, 1)]);
    Next(s, es, t, Invoke(c, request), t1, p);
    var t2 := t.(clients := t.clients[c := ReadChild(HandleOf(x, p), t.store[p], 1)]);
    assert Do(t1, Step(c)) == t2;
    Next(s, es + [Invoke(c, request)], t1, Step(c), t2, p);
    more := es + [Invoke(c, request)] + [Step(c)];
  }

  /** The store calls of a release between its reads and its write. */
  lemma ReleaseRemoves(t: State, c: nat, x: Block, p: Block)
    requires Valid(t) && CanRelease(t, x, p)
    ensures var h, snap := HandleOf(x, p), t.store[p];
            var read := t.(clients := t.clients[c := ReadChild(h, snap, 1)]);
            var found := t.(clients := t.clients[c := RemoveChild(h, snap, 1)]);
            && Valid(read) && Do(read, Step(c)) == found && Valid(found)
            && Do(found, Step(c)) == t.(store := t.store - {x}, clients := t.clients[c := Releasing(x, p, snap)])
  {
    var read := t.(clients := t.clients[c := ReadChild(HandleOf(x, p), t.store[p], 1)]);
    assert ValidPc(read.clients[c]);
    var found := t.(clients := t.clients[c := RemoveChild(HandleOf(x, p), t.store[p], 1)]);
    assert Do(read, Step(c)) == found;
  }

  /** A release up to where it has removed the child and is about to write the parent. */
  lemma ReleaseHalfWay(s: State, es: seq<Event>, t: State, c: nat, x: Block, p: Block) returns (more: seq<Event>)
    requires Reaches(s, es, t, p) && Valid(t) && Free(t, c) && CanRelease(t, x, p)
    ensures Reaches(s, more, t.(store := t.store - {x}, clients := t.clients[c := Releasing(x, p, t.store[p])]), p)
  {
    var h, snap := HandleOf(x, p), t.store[p];
    var read := ReleaseReads(s, es, t, c, x, p);
    var t2 := t.(clients := t.clients[c := ReadChild(h, snap, 1)]);
    var t3 := t.(clients := t.clients[c := RemoveChild(h, snap, 1)]);
    var t4 := t.(store := t.store - {x}, clients := t.clients[c := Releasing(x, p, snap)]);
    ReleaseRemoves(t, c, x, p);
    Next(s, read, t2, Step(c), t3, p);
    Next(s, read + [Step(c)], t3, Step(c), t4, p);
    more := read + [Step(c)] + [Step(c)];
  }

  function GivenUp(r: Prefix, x: Block): Prefix {
    Commit(r.(children := r.children[x := true]))
  }

  lemma GivenUpClaims(r: Prefix, x: Block)
    ensures Claims(GivenUp(r, x)) == Claims(r) - {x}
    ensures GivenUp(r, x) == r.(children := GivenUp(r, x).children, version := r.version + 1)
  {
  }

  /** The write of a release whose snapshot is current. */
  lemma ReleaseCommits(s: State, es: seq<Event>, t: State, c: nat, x: Block, p: Block) returns (more: seq<Event>)
    requires Reaches(s, es, t, p) && Valid(t) && p in t.store
    requires c in t.clients && t.clients[c] == Releasing(x, p, t.store[p])
    ensures Reaches(s, more, State(t.store[p := GivenUp(t.store[p], x)], t.clients[c := Idle],
                                   t.log + [Entry(ReleaseChild(p, x), Done)]), p)
  {
    assert ValidPc(t.clients[c]);
    var u := State(t.store[p := GivenUp(t.store[p], x)], t.clients[c := Idle],
                   t.log + [Entry(ReleaseChild(p, x), Done)]);
    assert Do(t, Step(c)) == u;
    Next(s, es, t, Step(c), u, p);
    more := es + [Step(c)];
  }

  /** A client reads the parent to claim a child of it. */
  lemma ClaimReads(s: State, es: seq<Event>, t: State, c: nat, p: Block, want: Want) returns (more: seq<Event>)
    requires Reaches(s, es, t, p) && Valid(t) && Free(t, c) && p in t.store
    requires WellFormed(AcquireChild(p, want)) && ClaimChild(t.store[p], want).Ok?
    ensures var op := AcquireChild(p, want);
            Reaches(s, more, t.(clients := t.clients[c := Write(Swap(op), op, t.store[p], 1)]), p)
  {
    var op := AcquireChild(p, want);
    var t1 := t.(clients := t.clients[c := Read(Swap(op), 1)]);
    Next(s, es, t, Invoke(c, Swap(op)), t1, p);
    var t2 := t.(clients := t.clients[c := Write(Swap(op), op, t.store[p], 1)]);
    assert Do(t1, Step(c)) == t2;
    Next(s, es + [Invoke(c, Swap(op))], t1, Step(c), t2, p);
    more := es + [Invoke(c, Swap(op))] + [Step(c)];
  }

  function AfterClaim(t: State, c: nat, p: Block, want: Want): State
    requires p in t.store && WellFormed(AcquireChild(p, want)) && t.store[p].cidr == p
    requires ClaimChild(t.store[p], want).Ok?
  {
    ClaimIsFree(t.store[p], want);
    var (next, outcome) := ClaimChild(t.store[p], want).value;
    State(t.store[p := Commit(next)], t.clients[c := Create(outcome.child, Some(p))],
          t.log + [Entry(AcquireChild(p, want), outcome)])
  }

  lemma ClaimWrites(t: State, c: nat, p: Block, want: Want)
    requires Valid(t) && p in t.store && WellFormed(AcquireChild(p, want)) && ClaimChild(t.store[p], want).Ok?
    ensures t.store[p].cidr == p
    ensures var op := AcquireChild(p, want);
            var read := t.(clients := t.clients[c := Write(Swap(op), op, t.store[p], 1)]);
            Valid(read) && Do(read, Step(c)) == AfterClaim(t, c, p, want)
  {
    var op := AcquireChild(p, want);
    var read := t.(clients := t.clients[c := Write(Swap(op), op, t.store[p], 1)]);
    assert ValidPc(read.clients[c]);
    ClaimIsFree(t.store[p], want);
    assert Do(read, Step(c)) == Swapped(read, c, read.clients[c]);
  }

  /** The same client commits its claim; it has yet to create the child. */
  lemma ClaimCommits(s: State, es: seq<Event>, t: State, c: nat, p: Block, want: Want) returns (more: seq<Event>)
    requires Reaches(s, es, t, p) && Valid(t) && Free(t, c) && p in t.store && t.store[p].cidr == p
    requires WellFormed(AcquireChild(p, want)) && ClaimChild(t.store[p], want).Ok?
    ensures Reaches(s, more, AfterClaim(t, c, p, want), p)
  {
    var op := AcquireChild(p, want);
    var read := ClaimReads(s, es, t, c, p, want);
    var t2 := t.(clients := t.clients[c := Write(Swap(op), op, t.store[p], 1)]);
    ClaimWrites(t, c, p, want);
    Next(s, read, t2, Step(c), AfterClaim(t, c, p, want), p);
    more := read + [Step(c)];
  }

  /** A client files its record. */
  lemma CreateFiles(s: State, es: seq<Event>, t: State, c: nat, x: Block, p: Block) returns (more: seq<Event>)
    requires Reaches(s, es, t, p) && Valid(t) && p in t.store && x !in t.store
    requires c in t.clients && t.clients[c] == Create(x, Some(p))
    ensures Reaches(s, more, t.(store := t.store[x := Fresh(x, Some(p))], clients := t.clients[c := Idle]), p)
  {
    var u := t.(store := t.store[x := Fresh(x, Some(p))], clients := t.clients[c := Idle]);
    assert Do(t, Step(c)) == u;
    Next(s, es, t, Step(c), u, p);
    more := es + [Step(c)];
  }

  /** What is reached is valid. */
  lemma ReachedIsValid(s: State, es: seq<Event>, t: State, p: Block)
    requires Reaches(s, es, t, p)
    ensures Valid(t)
  {
  }
}
