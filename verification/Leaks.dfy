/**
 Claims without records. A claim of an undeleted prefix is stored, or about to be created, or
 about to be given up by a release that will win; otherwise it is leaked. The lemmas say
 exactly which events leak a claim, that it stays leaked for good, and that it happens.
 */
module Leaks {
  import opened Wrappers
  import opened Cidr
  import opened Prefixes
  import opened Clients
  import opened Atomicity
  import opened Children
  import opened Runs

  /** Past its reads, on the way to giving up the claim `x` of `p`. */
  predicate GivesUp(pc: Pc, x: Block, p: Block) {
    || (pc.RemoveChild? && pc.snap.cidr == p && pc.handle.child == x)
    || (pc.Write? && pc.op == ReleaseChild(p, x))
  }

  /** A release in progress that will win unless somebody else commits first. */
  predicate WillGiveUp(s: State, pc: Pc, x: Block, p: Block)
    requires p in s.store
  {
    GivesUp(pc, x, p) && (pc.RemoveChild? || pc.Write?) && pc.snap.version == s.store[p].version
  }

  predicate SomebodyWillGiveUp(s: State, x: Block, p: Block)
    requires p in s.store
  {
    exists c | c in s.clients :: WillGiveUp(s, s.clients[c], x, p)
  }

  /** `x` is claimed but not stored, nobody is about to store it, and no pending release can still win. */
  predicate Leaked(s: State, x: Block, p: Block) {
    && p in s.store && x in Claims(s.store[p]) && x !in s.store
    && NobodyCreates(s, x) && !SomebodyWillGiveUp(s, x, p)
  }

  /** Claimed, with a record, a creator or a release to come. */
  predicate Accounted(s: State, x: Block, p: Block)
    requires p in s.store
  {
    x in Claims(s.store[p]) && (x in s.store || !NobodyCreates(s, x) || SomebodyWillGiveUp(s, x, p))
  }

  // ---- Which events leak a claim

  /** The client's write on `p` will pass, and leaves `x` claimed. */
  predicate CommitsPast(s: State, pc: Pc, x: Block, p: Block)
    requires p in s.store && ValidPc(pc)
  {
    && pc.Write? && pc.snap.cidr == p && pc.snap.version == s.store[p].version
    && x in Claims(Commit(Compute(pc.op, pc.snap).value.0))
  }

  /**
   The two ways to leak: a commit on the parent overtakes a release that has removed the
   child, or the child's record is removed while no release of it will win: by DeletePrefix,
   by a release under another parent, or by one with an outdated snapshot.
   */
  predicate LeaksNow(s: State, e: Event, x: Block, p: Block)
    requires Valid(s) && p in s.store
  {
    && e.Step? && e.client in s.clients && x in Claims(s.store[p]) && NobodyCreates(s, x)
    && var pc := s.clients[e.client];
       if x in s.store then Removes(pc) == Some(x) && !SomebodyWillGiveUp(s, x, p)
       else SomebodyWillGiveUp(s, x, p) && ValidPc(pc) && CommitsPast(s, pc, x, p)
  }

  /** What the clients other than `c`, and `c` before and after, do about `x`. */
  lemma WillFrame(s: State, t: State, c: nat, pc: Pc, x: Block, p: Block)
    requires p in s.store && p in t.store && t.store[p].version == s.store[p].version && t.clients == s.clients[c := pc]
    requires (c in s.clients && WillGiveUp(s, s.clients[c], x, p)) <==> WillGiveUp(t, pc, x, p)
    ensures SomebodyWillGiveUp(t, x, p) <==> SomebodyWillGiveUp(s, x, p)
  {
    if SomebodyWillGiveUp(s, x, p) {
      var d :| d in s.clients && WillGiveUp(s, s.clients[d], x, p);
      assert d in t.clients && WillGiveUp(t, t.clients[d], x, p);
    }
    if SomebodyWillGiveUp(t, x, p) {
      var d :| d in t.clients && WillGiveUp(t, t.clients[d], x, p);
      assert d in s.clients && WillGiveUp(s, s.clients[d], x, p);
    }
  }

  lemma CreatorFrame(s: State, t: State, c: nat, pc: Pc, x: Block)
    requires t.clients == s.clients[c := pc] && ((c in s.clients && CreatesAt(s.clients[c], x)) <==> CreatesAt(pc, x))
    ensures NobodyCreates(t, x) <==> NobodyCreates(s, x)
  {
    forall d | d in s.clients
      ensures d in t.clients && (d != c ==> t.clients[d] == s.clients[d])
    {
    }
  }

  /** After a commit on `p`, no release that read it before will win. */
  lemma CommitOutdates(s: State, t: State, c: nat, pc: Pc, x: Block, p: Block)
    requires Valid(s) && p in s.store && SnapshotsCurrent(s, p) && p in t.store
    requires t.store[p].version > s.store[p].version && t.clients == s.clients[c := pc] && (pc.Idle? || pc.Create?)
    ensures !SomebodyWillGiveUp(t, x, p)
  {
    forall d | d in t.clients
      ensures !WillGiveUp(t, t.clients[d], x, p)
    {
      if d != c {
        assert ValidPc(s.clients[d]);
        assert Snap(s.clients[d]).Some? && Snap(s.clients[d]).value.cidr == p ==>
                 Current(Snap(s.clients[d]).value, s.store[p]);
      }
    }
  }

  predicate BecomesLeaked(s: State, e: Event, x: Block, p: Block)
    requires Valid(s) && ValidEvent(e)
  {
    !Leaked(s, x, p) && Leaked(Do(s, e), x, p)
  }

  lemma OwnCommitLeaksIff(s: State, c: nat, x: Block, p: Block)
    requires Valid(s) && c in s.clients && s.clients[c].Write? && p in s.store && SnapshotsCurrent(s, p)
    requires s.clients[c].snap.cidr == p && s.clients[c].snap.version == s.store[p].version
    ensures BecomesLeaked(s, Step(c), x, p) <==> LeaksNow(s, Step(c), x, p)
  {
    var pc, t := s.clients[c], Do(s, Step(c));
    assert ValidPc(pc) && Current(Snap(pc).value, s.store[p]);
    assert t == Swapped(s, c, pc);
    CommittedClaims(pc.op, pc.snap);
    ComputeKeepsSound(pc.op, pc.snap);
    CommitOutdates(s, t, c, t.clients[c], x, p);
    if x in Claims(s.store[p]) {
      CreatorFrame(s, t, c, t.clients[c], x);
    }
  }

  lemma RemovalLeaksIff(s: State, c: nat, x: Block, p: Block)
    requires Valid(s) && c in s.clients && Removes(s.clients[c]).Some? && p in s.store && p in Do(s, Step(c)).store
    ensures BecomesLeaked(s, Step(c), x, p) <==> LeaksNow(s, Step(c), x, p)
  {
    var pc, t := s.clients[c], Do(s, Step(c));
    assert ValidPc(pc);
    WillFrame(s, t, c, t.clients[c], x, p);
    CreatorFrame(s, t, c, t.clients[c], x);
  }

  /** A record of `x` appears only if somebody was creating it. */
  lemma CreationDoesNotLeak(s: State, c: nat, x: Block, p: Block)
    requires Valid(s) && c in s.clients && s.clients[c].Create? && p in s.store
    ensures !BecomesLeaked(s, Step(c), x, p) && !LeaksNow(s, Step(c), x, p)
  {
    var pc, t := s.clients[c], Do(s, Step(c));
    WillFrame(s, t, c, Idle, x, p);
    if pc.cidr != x {
      CreatorFrame(s, t, c, Idle, x);
    }
  }

  /** Reads, lost writes and new requests leave all records alone. */
  lemma MoveDoesNotLeak(s: State, e: Event, pc: Pc, x: Block, p: Block)
    requires Valid(s) && ValidEvent(e) && p in s.store && Do(s, e) == s.(clients := s.clients[e.client := pc])
    requires e.client in s.clients ==> !s.clients[e.client].Create? && !WillGiveUp(s, s.clients[e.client], x, p)
    ensures Leaked(Do(s, e), x, p) ==> Leaked(s, x, p)
  {
    var t, c := Do(s, e), e.client;
    if Leaked(t, x, p) {
      forall d | d in s.clients
        ensures !CreatesAt(s.clients[d], x) && !WillGiveUp(s, s.clients[d], x, p)
      {
        assert d != c ==>
                 t.clients[d] == s.clients[d] && WillGiveUp(t, t.clients[d], x, p) == WillGiveUp(s, s.clients[d], x, p);
      }
    }
  }

  /** A commit on another record does not touch the claims of `p`. */
  lemma OtherCommitDoesNotLeak(s: State, c: nat, x: Block, p: Block)
    requires Valid(s) && c in s.clients && s.clients[c].Write? && p in s.store && s.clients[c].snap.cidr != p
    ensures Leaked(Do(s, Step(c)), x, p) ==> Leaked(s, x, p)
  {
    var pc, t := s.clients[c], Do(s, Step(c));
    assert ValidPc(pc) && t == Swapped(s, c, pc);
    if Leaked(t, x, p) {
      WillFrame(s, t, c, t.clients[c], x, p);
      CreatorFrame(s, t, c, t.clients[c], x);
    }
  }

  /** Exactly these events leak a claim of an undeleted prefix. */
  lemma LeaksIff(s: State, e: Event, x: Block, p: Block)
    requires Valid(s) && ValidEvent(e) && p in s.store && SnapshotsCurrent(s, p) && p in Do(s, e).store
    ensures BecomesLeaked(s, e, x, p) <==> LeaksNow(s, e, x, p)
  {
    var t, c := Do(s, e), e.client;
    if t == s {
    } else if e.Invoke? {
      MoveDoesNotLeak(s, e, t.clients[c], x, p);
    } else {
      var pc := s.clients[c];
      assert ValidPc(pc);
      if Removes(pc).Some? {
        RemovalLeaksIff(s, c, x, p);
      } else if pc.Create? {
        CreationDoesNotLeak(s, c, x, p);
      } else if pc.Write? && pc.snap.cidr == p && pc.snap.version == s.store[p].version {
        OwnCommitLeaksIff(s, c, x, p);
      } else if pc.Write? && pc.snap.cidr != p {
        OtherCommitDoesNotLeak(s, c, x, p);
      } else {
        MoveDoesNotLeak(s, e, t.clients[c], x, p);
      }
    }
  }

  // ---- A leaked claim stays leaked

  /** A claim without a record, a creator or a winning release gets none of them. */
  lemma NothingStarts(s: State, t: State, c: nat, pc: Pc, x: Block, p: Block)
    requires Leaked(s, x, p) && Orderly(t, p) && x in Claims(t.store[p])
    requires t.clients == s.clients[c := pc] && s.store[p].version <= t.store[p].version
    requires NewByCreator(s, t, c)
    requires pc.Create? && pc.parent == Some(p) ==> pc.cidr != x
    requires forall d | d in s.clients && GivesUp(s.clients[d], x, p)
             && (s.clients[d].RemoveChild? || s.clients[d].Write?) ::
               s.clients[d].snap.version < s.store[p].version
    requires GivesUp(pc, x, p) && (pc.RemoveChild? || pc.Write?) ==> pc.snap.version < t.store[p].version
    ensures Leaked(t, x, p)
  {
    ClaimsDoNotNest(t.store[p], x);
    assert pc.Create? ==> CreatorFits(t.store, t.clients[c], p);
  }

  lemma LeakedOutdates(s: State, x: Block, p: Block)
    requires Valid(s) && Leaked(s, x, p) && SnapshotsCurrent(s, p)
    ensures forall d | d in s.clients && GivesUp(s.clients[d], x, p)
            && (s.clients[d].RemoveChild? || s.clients[d].Write?) ::
              s.clients[d].snap.version < s.store[p].version
  {
    forall d | d in s.clients && GivesUp(s.clients[d], x, p) && (s.clients[d].RemoveChild? || s.clients[d].Write?)
      ensures s.clients[d].snap.version < s.store[p].version
    {
      assert ValidPc(s.clients[d]) && !WillGiveUp(s, s.clients[d], x, p);
      assert Current(Snap(s.clients[d]).value, s.store[p]);
    }
  }

  lemma SwapKeepsLeaked(s: State, c: nat, x: Block, p: Block)
    requires Valid(s) && Leaked(s, x, p) && Orderly(s, p) && SnapshotsCurrent(s, p) && c in s.clients
    requires s.clients[c].Write?
    ensures Leaked(Do(s, Step(c)), x, p)
  {
    var pc, t := s.clients[c], Do(s, Step(c));
    assert ValidPc(pc) && t == Swapped(s, c, pc) && Snap(pc) == Some(pc.snap);
    SwapKeepsOrderly(s, c, pc, p);
    LeakedOutdates(s, x, p);
    var key := pc.snap.cidr;
    if key in s.store && s.store[key].version == pc.snap.version {
      CommittedClaims(pc.op, pc.snap);
      ComputeKeepsSound(pc.op, pc.snap);
      if key == p {
        assert Current(Snap(pc).value, s.store[p]);
        assert pc.op == ReleaseChild(p, x) ==> GivesUp(pc, x, p);
      }
    }
    NothingStarts(s, t, c, t.clients[c], x, p);
  }

  /** What a step other than a write changes. */
  lemma StepWithoutWrite(s: State, e: Event, x: Block, p: Block)
    requires Valid(s) && ValidEvent(e) && p in s.store && p in Do(s, e).store && Do(s, e) != s && x !in s.store
    requires e.client in s.clients ==> !s.clients[e.client].Write?
    ensures var t, c := Do(s, e), e.client;
            && c in t.clients && t.clients == s.clients[c := t.clients[c]] && t.store[p] == s.store[p]
            && NewByCreator(s, t, c)
            && (t.clients[c].Create? ==> t.clients[c].parent.None?)
            && (GivesUp(t.clients[c], x, p) ==>
                c in s.clients && s.clients[c].RemoveChild? && GivesUp(s.clients[c], x, p)
                                                && t.clients[c].Write? && t.clients[c].snap == s.clients[c].snap)
  {
    if e.Step? {
      assert ValidPc(s.clients[e.client]);
    }
  }

  lemma StepKeepsLeaked(s: State, e: Event, x: Block, p: Block)
    requires Valid(s) && ValidEvent(e) && Orderly(s, p) && SnapshotsCurrent(s, p) && Leaked(s, x, p)
    requires Careful(s, e, p) && p in Do(s, e).store
    ensures Leaked(Do(s, e), x, p)
  {
    var t, c := Do(s, e), e.client;
    if t == s {
    } else if c in s.clients && s.clients[c].Write? {
      SwapKeepsLeaked(s, c, x, p);
    } else {
      StepKeepsOrderly(s, e, p);
      LeakedOutdates(s, x, p);
      StepWithoutWrite(s, e, x, p);
      NothingStarts(s, t, c, t.clients[c], x, p);
    }
  }

  // ---- Whole runs

  /** The runs this is about: careful ones on a prefix that is there all along, from a store in order. */
  ghost predicate InOrder(s: State, es: seq<Event>, p: Block) {
    && Quiet(s) && ValidEvents(es) && Undeleted(s, es, p) && CarefulRun(s, es, p)
    && p in s.store && SpaceClaimed(s.store, p) && AboveClaims(s.store, p)
  }

  /** A leaked block stays claimed and never gets a record again, in all such runs. */
  lemma {:induction false} LeakIsPermanent(s: State, es: seq<Event>, more: seq<Event>, x: Block, p: Block)
    requires InOrder(s, es + more, p) && ValidEvents(es) && Leaked(Exec(s, es), x, p)
    ensures Leaked(Exec(s, es + more), x, p)
    decreases |more|
  {
    if more == [] {
      assert es + more == es;
    } else {
      var n := |more| - 1;
      var all := es + more;
      assert all[..|all| - 1] == es + more[..n];
      LeakIsPermanent(s, es, more[..n], x, p);
      OrderlyThroughout(s, es + more[..n], p);
      SerialThroughout(s, es + more[..n], p);
      StepKeepsLeaked(Exec(s, es + more[..n]), all[|all| - 1], x, p);
    }
  }

  /** Some event of the run leaked the claim. */
  ghost predicate LeakedDuring(s: State, es: seq<Event>, x: Block, p: Block)
    requires Valid(s) && ValidEvents(es) && Undeleted(s, es, p)
  {
    es != [] &&
    var front := es[..|es| - 1];
    LeakedDuring(s, front, x, p) || LeaksNow(Exec(s, front), es[|es| - 1], x, p)
  }

  /** A claim is leaked exactly when some event of the run leaked it. */
  lemma {:induction false} LeakedIff(s: State, es: seq<Event>, x: Block, p: Block)
    requires InOrder(s, es, p) && !Leaked(s, x, p)
    ensures Leaked(Exec(s, es), x, p) <==> LeakedDuring(s, es, x, p)
  {
    if es != [] {
      var n := |es| - 1;
      var t := Exec(s, es[..n]);
      LeakedIff(s, es[..n], x, p);
      OrderlyThroughout(s, es[..n], p);
      SerialThroughout(s, es[..n], p);
      LeaksIff(t, es[n], x, p);
      if Leaked(t, x, p) {
        StepKeepsLeaked(t, es[n], x, p);
      }
    }
  }

  /** So where no event leaks, every claim has a record, a creator or a release that will win. */
  lemma ClaimsAreAccounted(s: State, es: seq<Event>, x: Block, p: Block)
    requires InOrder(s, es, p) && !Leaked(s, x, p) && !LeakedDuring(s, es, x, p) && x in Claims(Exec(s, es).store[p])
    ensures Accounted(Exec(s, es), x, p)
  {
    LeakedIff(s, es, x, p);
  }

  // ---- It happens

  lemma GrantedClaims(r: Prefix, p: Block, want: Want, x: Block)
    requires r.cidr == p && Sound(r) && WellFormed(AcquireChild(p, want)) && ClaimChild(r, want).Ok? && x in Claims(r)
    ensures var (next, outcome) := ClaimChild(r, want).value;
            && outcome.Child? && outcome.child != x && Claims(Commit(next)) == Claims(r) + {outcome.child}
            && Commit(next).version == r.version + 1
  {
    CommittedClaims(AcquireChild(p, want), r);
    ComputeKeepsSound(AcquireChild(p, want), r);
  }

  /** The state in which the release has lost the race. */
  lemma RaceIsLost(u: State, snap: Prefix, x: Block, p: Block, child: Block)
    requires p in u.store && x in Claims(u.store[p]) && x !in u.store && child != x && snap.version < u.store[p].version
    requires u.clients == map[0 := Releasing(x, p, snap), 1 := Create(child, Some(p))]
    ensures Leaked(u, x, p)
  {
  }

  /**
   Two clients suffice: wherever a claimed, stored child could be released and another child
   could be granted, some run of such requests leaks the first one.
   */
  lemma LeakIsReachable(s: State, x: Block, p: Block, want: Want) returns (es: seq<Event>, u: State)
    requires Quiet(s) && p in s.store && x in s.store && x in Claims(s.store[p]) && !HasIps(s.store[x])
    requires WellFormed(AcquireChild(p, want)) && ClaimChild(s.store[p], want).Ok?
    ensures Reaches(s, es, u, p) && Leaked(u, x, p)
  {
    var r := s.store[p];
    assert Sound(r) && r.cidr == p && p != x;
    GrantedClaims(r, p, want, x);
    Start(s, p);
    var half := ReleaseHalfWay(s, [], s, 0, x, p);
    var t := s.(store := s.store - {x}, clients := s.clients[0 := Releasing(x, p, r)]);
    ReachedIsValid(s, half, t, p);
    es := ClaimCommits(s, half, t, 1, p, want);
    u := AfterClaim(t, 1, p, want);
    RaceIsLost(u, r, x, p, ClaimChild(r, want).value.1.child);
  }

  /** The three events of a deletion that nobody disturbs. */
  lemma DeletionRuns(s: State, x: Block) returns (es: seq<Event>)
    requires Quiet(s) && x in s.store && !HasIps(s.store[x])
    ensures es == [Invoke(0, DeletePrefix(x)), Step(0), Step(0)] && ValidEvents(es)
    ensures Exec(s, es) == s.(store := s.store - {x}, clients := map[0 := Idle])
  {
    es := [Invoke(0, DeletePrefix(x)), Step(0), Step(0)];
    var s1 := s.(clients := map[0 := Read(DeletePrefix(x), 1)]);
    var s2 := s.(clients := map[0 := Remove(x)]);
    ExecLast(s, es[..1], [], es[0]);
    assert Exec(s, es[..1]) == s1;
    ExecLast(s, es[..2], es[..1], es[1]);
    assert Exec(s, es[..2]) == s2;
    ExecLast(s, es, es[..2], es[2]);
  }

  /** One client suffices too: deleting a child instead of releasing it leaks its claim. */
  lemma DeletingLeaks(s: State, x: Block, p: Block)
    requires Quiet(s) && p in s.store && x in s.store && x in Claims(s.store[p]) && !HasIps(s.store[x])
    ensures var es := [Invoke(0, DeletePrefix(x)), Step(0), Step(0)];
            ValidEvents(es) && Leaked(Exec(s, es), x, p)
  {
    var es := DeletionRuns(s, x);
    assert Sound(s.store[p]) && s.store[p].cidr == p && p != x;
  }
}
