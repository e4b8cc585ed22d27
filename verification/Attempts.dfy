/**
 One client at a time, and one client among others. A client that is not disturbed does to the
 store what the request does at once; a client that loses a write starts its request over, and
 gives up after the tenth lost write of the request, not before.
 */
module Attempts {
  import opened Wrappers
  import opened Cidr
  import opened Prefixes
  import opened Clients
  import Forest
  import Runs

  // ---- Undisturbed

  /** `n` store calls of the client in a row. */
  function Turns(s: State, c: nat, n: nat): (t: State)
    requires Valid(s)
    ensures Valid(t)
  {
    if n == 0 then s else Do(Turns(s, c, n - 1), Step(c))
  }

  function With(s: State, c: nat, pc: Pc): State {
    s.(clients := s.clients[c := pc])
  }

  /** The client has finished, and the store is this. */
  ghost predicate Finished(s: State, c: nat, n: nat, store: Store, clients: map<nat, Pc>)
    requires Valid(s)
  {
    Turns(s, c, n).store == store && Turns(s, c, n).clients == clients[c := Idle]
  }

  /** From where a client is, one store call leads on. */
  lemma TurnsOn(s: State, t: State, c: nat, n: nat, store: Store, clients: map<nat, Pc>)
    requires Valid(s) && t == Do(s, Step(c)) && Finished(t, c, n, store, clients)
    ensures Finished(s, c, n + 1, store, clients)
  {
    TurnsFromFirst(s, c, n);
  }

  lemma {:induction false} TurnsFromFirst(s: State, c: nat, n: nat)
    requires Valid(s)
    ensures Turns(s, c, n + 1) == Turns(Do(s, Step(c)), c, n)
  {
    if n > 0 {
      TurnsFromFirst(s, c, n - 1);
    }
  }

  lemma {:induction false} IdleStays(s: State, c: nat, n: nat)
    requires Valid(s) && c in s.clients && s.clients[c].Idle?
    ensures Turns(s, c, n) == s && Finished(s, c, n, s.store, s.clients)
  {
    if n > 0 {
      IdleStays(s, c, n - 1);
    }
    assert s.clients[c := Idle] == s.clients;
  }

  lemma Ends(s: State, c: nat, n: nat, store: Store, clients: map<nat, Pc>)
    requires Valid(s) && s.store == store && s.clients == clients[c := Idle]
    ensures Finished(s, c, n, store, clients)
  {
    IdleStays(s, c, n);
    assert clients[c := Idle][c := Idle] == clients[c := Idle];
  }

  lemma CreateAlone(s: State, c: nat, cidr: Block, parent: Option<Block>, n: nat, clients: map<nat, Pc>)
    requires Valid(s) && s.clients == clients[c := Create(cidr, parent)]
    ensures Finished(s, c, n + 1, if cidr in s.store then s.store else s.store[cidr := Fresh(cidr, parent)], clients)
  {
    var t := Do(s, Step(c));
    assert t.clients == clients[c := Idle];
    Ends(t, c, n, t.store, clients);
    TurnsOn(s, t, c, n, t.store, clients);
  }

  lemma NewPrefixAlone(s: State, c: nat, cidr: Block, clients: map<nat, Pc>)
    requires Valid(s) && s.clients == clients[c := Read(NewPrefix(cidr), 1)]
    ensures Finished(s, c, 4, Forest.Apply(s.store, NewPrefix(cidr)).0, clients)
  {
    var t := Do(s, Step(c));
    if OverlapsStored(s.store, cidr) {
      assert t.clients == clients[c := Idle];
      Ends(t, c, 3, s.store, clients);
    } else {
      assert cidr !in s.store by {
        assert Overlaps(cidr, cidr);
      }
      assert t.clients == clients[c := Create(cidr, None)];
      CreateAlone(t, c, cidr, None, 2, clients);
    }
    TurnsOn(s, t, c, 3, Forest.Apply(s.store, NewPrefix(cidr)).0, clients);
  }

  lemma DeletePrefixAlone(s: State, c: nat, cidr: Block, clients: map<nat, Pc>)
    requires Valid(s) && s.clients == clients[c := Read(DeletePrefix(cidr), 1)]
    ensures Finished(s, c, 4, Forest.Apply(s.store, DeletePrefix(cidr)).0, clients)
  {
    var t := Do(s, Step(c));
    var store := Forest.Apply(s.store, DeletePrefix(cidr)).0;
    if cidr in s.store && !HasIps(s.store[cidr]) {
      assert t.clients == clients[c := Remove(cidr)];
      var u := Do(t, Step(c));
      assert u.clients == clients[c := Idle];
      Ends(u, c, 2, store, clients);
      TurnsOn(t, u, c, 2, store, clients);
    } else {
      assert t.clients == clients[c := Idle];
      Ends(t, c, 3, store, clients);
    }
    TurnsOn(s, t, c, 3, store, clients);
  }

  lemma WritePasses(s: State, c: nat, request: Request, op: Op, clients: map<nat, Pc>)
    requires Valid(s) && Target(op) in s.store
    requires s.clients == clients[c := Write(request, op, s.store[Target(op)], 1)] && ValidPc(s.clients[c])
    ensures var (next, outcome) := Compute(op, s.store[Target(op)]).value;
            var t := Do(s, Step(c));
            && t.store == s.store[Target(op) := Commit(next)]
            && t.clients == clients[c := if outcome.Child? then Create(outcome.child, Some(Target(op))) else Idle]
  {
    var t := Do(s, Step(c));
    assert t == Swapped(s, c, s.clients[c]);
  }

  /** The write of an operation whose snapshot is the record. */
  lemma WriteAlone(s: State, c: nat, request: Request, op: Op, n: nat, clients: map<nat, Pc>)
    requires Valid(s) && Target(op) in s.store
    requires s.clients == clients[c := Write(request, op, s.store[Target(op)], 1)] && ValidPc(s.clients[c])
    ensures Finished(s, c, n + 2, Forest.ApplySwap(s.store, op).0, clients)
  {
    var outcome := Compute(op, s.store[Target(op)]).value.1;
    var t := Do(s, Step(c));
    WritePasses(s, c, request, op, clients);
    if outcome.Child? {
      CreateAlone(t, c, outcome.child, Some(Target(op)), n, clients);
    } else {
      Ends(t, c, n + 1, t.store, clients);
    }
    TurnsOn(s, t, c, n + 1, Forest.ApplySwap(s.store, op).0, clients);
  }

  lemma SwapAlone(s: State, c: nat, op: Op, clients: map<nat, Pc>)
    requires Valid(s) && ValidRequest(Swap(op)) && s.clients == clients[c := Read(Swap(op), 1)]
    ensures Finished(s, c, 4, Forest.ApplySwap(s.store, op).0, clients)
  {
    var t := Do(s, Step(c));
    if Target(op) in s.store && Compute(op, s.store[Target(op)]).Ok? {
      assert t.clients == clients[c := Write(Swap(op), op, s.store[Target(op)], 1)];
      WriteAlone(t, c, Swap(op), op, 1, clients);
    } else {
      assert t.clients == clients[c := Idle];
      Ends(t, c, 3, s.store, clients);
    }
    TurnsOn(s, t, c, 3, Forest.ApplySwap(s.store, op).0, clients);
  }

  /** The write of a release, once the child is gone. */
  lemma GiveUpAlone(s: State, c: nat, h: Handle, snap: Prefix, clients: map<nat, Pc>)
    requires Valid(s) && h.parent.Some? && snap.cidr == h.parent.value
    requires s.clients == clients[c := Write(Release(h), ReleaseOp(h), snap, 1)]
    requires h.parent.value in s.store ==> s.store[h.parent.value] == snap
    ensures var t := Do(s, Step(c));
            && t.clients == clients[c := Idle]
            && t.store == if snap.cidr !in s.store then s.store
                          else s.store[snap.cidr := Commit(snap.(children := snap.children[h.child := true]))]
  {
    assert ValidPc(s.clients[c]);
    assert Do(s, Step(c)) == Swapped(s, c, s.clients[c]);
  }

  lemma RemovedAlone(s: State, c: nat, h: Handle, snap: Prefix, clients: map<nat, Pc>)
    requires Valid(s) && s.clients == clients[c := RemoveChild(h, snap, 1)] && h.parent.Some?
    ensures var t := Do(s, Step(c));
            t.store == s.store - {h.child} && t.clients == clients[c := Write(Release(h), ReleaseOp(h), snap, 1)]
  {
  }

  /** The end of a release: the child is removed and the claim given up. */
  lemma RemoveAlone(s: State, c: nat, h: Handle, clients: map<nat, Pc>)
    requires Valid(s) && h.parent.Some? && h.parent.value in s.store && h.ipCount <= 2
    requires h.child in s.store && !HasIps(s.store[h.child])
    requires s.clients == clients[c := RemoveChild(h, s.store[h.parent.value], 1)]
    ensures Finished(s, c, 2, Forest.ApplyRelease(s.store, h).0, clients)
  {
    var snap, t := s.store[h.parent.value], Do(s, Step(c));
    RemovedAlone(s, c, h, snap, clients);
    GiveUpAlone(t, c, h, snap, clients);
    var u := Do(t, Step(c));
    Ends(u, c, 0, u.store, clients);
    TurnsOn(t, u, c, 0, u.store, clients);
    TurnsOn(s, t, c, 1, u.store, clients);
  }

  lemma ReadChildAlone(s: State, c: nat, h: Handle, clients: map<nat, Pc>)
    requires Valid(s) && h.parent.Some? && h.parent.value in s.store && h.ipCount <= 2
    requires s.clients == clients[c := ReadChild(h, s.store[h.parent.value], 1)]
    ensures Finished(s, c, 3, Forest.ApplyRelease(s.store, h).0, clients)
  {
    var t := Do(s, Step(c));
    if h.child in s.store && !HasIps(s.store[h.child]) {
      assert t.clients == clients[c := RemoveChild(h, s.store[h.parent.value], 1)];
      RemoveAlone(t, c, h, clients);
    } else {
      assert t.clients == clients[c := Idle];
      Ends(t, c, 2, s.store, clients);
    }
    TurnsOn(s, t, c, 2, Forest.ApplyRelease(s.store, h).0, clients);
  }

  lemma ReleaseAlone(s: State, c: nat, h: Handle, clients: map<nat, Pc>)
    requires Valid(s) && s.clients == clients[c := Read(Release(h), 1)]
    ensures Finished(s, c, 4, Forest.ApplyRelease(s.store, h).0, clients)
  {
    var t := Do(s, Step(c));
    if h.parent.Some? && h.parent.value in s.store && h.ipCount <= 2 {
      assert t.clients == clients[c := ReadChild(h, s.store[h.parent.value], 1)];
      ReadChildAlone(t, c, h, clients);
    } else {
      assert t.clients == clients[c := Idle];
      Ends(t, c, 3, s.store, clients);
    }
    TurnsOn(s, t, c, 3, Forest.ApplyRelease(s.store, h).0, clients);
  }

  /**
   From any state, a request whose client makes all its store calls without others in between
   leaves the store as the request does when run at once, and the client idle.
   */
  lemma AloneIsAtOnce(s: State, c: nat, request: Request)
    requires Valid(s) && ValidRequest(request) && Runs.Free(s, c)
    ensures var t := Turns(Do(s, Invoke(c, request)), c, 4);
            t.store == Forest.Apply(s.store, request).0 && t.clients == s.clients[c := Idle]
  {
    var t := Do(s, Invoke(c, request));
    assert t == With(s, c, Read(request, 1));
    match request
    case Swap(op) => SwapAlone(t, c, op, s.clients);
    case Release(h) => ReleaseAlone(t, c, h, s.clients);
    case NewPrefix(cidr) => NewPrefixAlone(t, c, cidr, s.clients);
    case DeletePrefix(cidr) => DeletePrefixAlone(t, c, cidr, s.clients);
  }

  // ---- Among others

  /** The client's next call is a write that another one has overtaken. */
  predicate Loses(s: State, c: nat) {
    && c in s.clients && s.clients[c].Write? && s.clients[c].snap.cidr in s.store
    && s.store[s.clients[c].snap.cidr].version != s.clients[c].snap.version
  }

  /** The event gives the client a new request. */
  predicate Takes(s: State, e: Event, c: nat) {
    e.Invoke? && e.client == c && Runs.Free(s, c)
  }

  /** The request the client took last. */
  function Taken(s: State, es: seq<Event>, c: nat): Option<Request>
    requires Valid(s) && ValidEvents(es)
  {
    if es == [] then None
    else
      var front, e := es[..|es| - 1], es[|es| - 1];
      if Takes(Exec(s, front), e, c) then Some(e.request) else Taken(s, front, c)
  }

  /** How many writes the client has lost since. */
  function Losses(s: State, es: seq<Event>, c: nat): nat
    requires Valid(s) && ValidEvents(es)
  {
    if es == [] then 0
    else
      var front, e := es[..|es| - 1], es[|es| - 1];
      if Takes(Exec(s, front), e, c) then 0
      else Losses(s, front, c) + if e == Step(c) && Loses(Exec(s, front), c) then 1 else 0
  }

  /** The request a client serves and the attempt it is in, as long as it may still lose. */
  function Serving(pc: Pc): Option<(Request, nat)> {
    match pc
    case Read(request, attempt) => Some((request, attempt))
    case ReadChild(h, _, attempt) => Some((Release(h), attempt))
    case RemoveChild(h, _, attempt) => Some((Release(h), attempt))
    case Write(request, _, _, attempt) => Some((request, attempt))
    case _ => None
  }

  ghost predicate InAttempt(s: State, c: nat, taken: Option<Request>, losses: nat) {
    c in s.clients && Serving(s.clients[c]).Some? ==> taken == Some(Serving(s.clients[c]).value.0)
                                                      && Serving(s.clients[c]).value.1 == losses + 1
  }

  lemma StepKeepsAttempt(s: State, e: Event, c: nat, taken: Option<Request>, losses: nat)
    requires Valid(s) && ValidEvent(e) && InAttempt(s, c, taken, losses)
    ensures Takes(s, e, c) ==> InAttempt(Do(s, e), c, Some(e.request), 0)
    ensures !Takes(s, e, c) ==> InAttempt(Do(s, e), c, taken, losses + if e == Step(c) && Loses(s, c) then 1 else 0)
  {
    if e == Step(c) && c in s.clients {
      assert ValidPc(s.clients[c]);
    }
  }

  /** In every run, a client at work serves the request it took last, in the attempt after its last lost write. */
  lemma {:induction false} AttemptsCountLosses(s: State, es: seq<Event>, c: nat)
    requires Quiet(s) && ValidEvents(es)
    ensures InAttempt(Exec(s, es), c, Taken(s, es, c), Losses(s, es, c))
  {
    if es != [] {
      var n := |es| - 1;
      AttemptsCountLosses(s, es[..n], c);
      StepKeepsAttempt(Exec(s, es[..n]), es[n], c, Taken(s, es[..n], c), Losses(s, es[..n], c));
    }
  }

  lemma LostWriteMoves(s: State, c: nat)
    requires Valid(s) && Loses(s, c)
    ensures var pc := s.clients[c];
            Do(s, Step(c)) == With(s, c, if pc.attempt < 10 then Read(pc.request, pc.attempt + 1) else Idle)
  {
    assert ValidPc(s.clients[c]);
    assert Do(s, Step(c)) == Swapped(s, c, s.clients[c]);
  }

  /**
   So a lost write changes nothing, and makes the client start the same request over, unless it
   is the tenth one; then, and only then, it gives up.
   */
  lemma LostWriteIsTriedAgain(s: State, es: seq<Event>, c: nat)
    requires Quiet(s) && ValidEvents(es) && Loses(Exec(s, es), c)
    ensures var t, losses := Exec(s, es), Losses(s, es, c);
            && losses <= 9 && Taken(s, es, c).Some?
            && Do(t, Step(c)) == With(t, c, if losses == 9 then Idle else Read(Taken(s, es, c).value, losses + 2))
  {
    AttemptsCountLosses(s, es, c);
    LostWriteMoves(Exec(s, es), c);
    assert ValidPc(Exec(s, es).clients[c]);
  }
}
