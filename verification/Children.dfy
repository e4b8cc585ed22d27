/**
 Child records and the claims of their parent, in trees of any depth. Acquiring a child
 claims it in the parent before creating its record; releasing one removes the record before
 giving the claim up. So as long as no record is removed from around another one, every
 record inside a prefix lies in one of its claims, in any interleaving and also in runs that
 stop half way.
 */
module Children {
  import opened Wrappers
  import opened Cidr
  import opened FreeSet
  import opened Prefixes
  import opened Clients
  import opened Atomicity

  // ---- The invariant

  /** Every record inside `p` lies in a claim of `p`, so `p` does not hand its space out. */
  predicate SpaceClaimed(store: Store, p: Block)
    requires p in store
  {
    forall z | z in store && StrictlyWithin(z, p) :: Covered(z, Claims(store[p]))
  }

  /** Every record around `p` has claimed the space of `p`. */
  predicate AboveClaims(store: Store, p: Block) {
    forall q | q in store && StrictlyWithin(p, q) :: Covered(p, Claims(store[q]))
  }

  predicate CreatesAt(pc: Pc, x: Block) {
    pc.Create? && pc.cidr == x
  }

  predicate NobodyCreates(s: State, x: Block) {
    forall c | c in s.clients :: !CreatesAt(s.clients[c], x)
  }

  predicate Under(x: Block, claims: set<Block>) {
    exists c | c in claims :: StrictlyWithin(x, c)
  }

  /** A client about to create a child of `p` has its claim; others inside `p` create under a claim. */
  predicate CreatorFits(store: Store, pc: Pc, p: Block)
    requires p in store
  {
    pc.Create? ==>
      && !StrictlyWithin(p, pc.cidr)
      && (pc.parent == Some(p) ==> StrictlyWithin(pc.cidr, p) && pc.cidr in Claims(store[p]) && pc.cidr !in store)
      && (pc.parent != Some(p) && StrictlyWithin(pc.cidr, p) ==> Under(pc.cidr, Claims(store[p])))
  }

  /** At most one client creates a given child of `p`. */
  predicate OneCreator(s: State, p: Block) {
    forall c, d | c in s.clients && d in s.clients && c != d && s.clients[c].Create? && s.clients[c].parent == Some(p)
      && CreatesAt(s.clients[d], s.clients[c].cidr) :: s.clients[d].parent != Some(p)
  }

  /** Nothing within `y` is stored or about to be. */
  predicate Empty(s: State, y: Block) {
    && (forall z | z in s.store :: !Within(z, y))
    && (forall c | c in s.clients && s.clients[c].Create? :: !Within(s.clients[c].cidr, y))
  }

  /** Nothing strictly within `y` is. */
  predicate Hollow(s: State, y: Block) {
    && (forall z | z in s.store :: !StrictlyWithin(z, y))
    && (forall c | c in s.clients && s.clients[c].Create? :: !StrictlyWithin(s.clients[c].cidr, y))
  }

  /** The blocks that are stored or about to be. */
  predicate Occupied(s: State, z: Block) {
    z in s.store || !NobodyCreates(s, z)
  }

  /** What is occupied inside `p` is covered by these claims of it. */
  ghost predicate AllCovered(s: State, p: Block, claims: set<Block>) {
    forall z | Occupied(s, z) && StrictlyWithin(z, p) :: Covered(z, claims)
  }

  /** A write from this snapshot would pass and give up the claim `y`. */
  predicate Winning(snap: Prefix, r: Prefix, y: Block) {
    snap.cidr == r.cidr && snap.version == r.version && y in Claims(r)
  }

  /** A release that can still win has its child to itself, and once it has removed it nothing is left there. */
  predicate ReleaseFits(s: State, pc: Pc, p: Block)
    requires p in s.store
  {
    && (pc.RemoveChild? && Winning(pc.snap, s.store[p], pc.handle.child) ==>
          NobodyCreates(s, pc.handle.child) && (pc.handle.child in s.store || Empty(s, pc.handle.child)))
    && (pc.Write? && pc.op.ReleaseChild? && Winning(pc.snap, s.store[p], pc.op.child) ==> Empty(s, pc.op.child))
  }

  /** Nobody gives up what is around `p`, and snapshots of it claim the space of `p`. */
  predicate AboveFits(store: Store, pc: Pc, p: Block) {
    && (pc.RemoveChild? && Within(p, pc.handle.child) ==> pc.handle.child in store)
    && (pc.Write? && pc.op.ReleaseChild? ==> !Within(p, pc.op.child))
    && (Snap(pc).Some? && StrictlyWithin(p, Snap(pc).value.cidr) ==> Covered(p, Claims(Snap(pc).value)))
  }

  predicate RecordFits(s: State, p: Block) {
    p in s.store && s.store[p].cidr == p && Sound(s.store[p]) && SpaceClaimed(s.store, p) && AboveClaims(s.store, p)
  }

  predicate ClientsFit(s: State, p: Block)
    requires p in s.store
  {
    && OneCreator(s, p)
    && (forall c | c in s.clients :: CreatorFits(s.store, s.clients[c], p))
    && (forall c | c in s.clients :: ReleaseFits(s, s.clients[c], p))
    && (forall c | c in s.clients :: AboveFits(s.store, s.clients[c], p))
  }

  predicate Orderly(s: State, p: Block) {
    RecordFits(s, p) && ClientsFit(s, p)
  }

  // ---- Blocks and claims

  lemma ClaimsDoNotNest(r: Prefix, x: Block)
    requires Sound(r) && x in Claims(r)
    ensures !Under(x, Claims(r))
  {
  }

  /** A block inside a claim of `p` is inside `p`. */
  lemma CoveredIsInside(r: Prefix, x: Block)
    requires Sound(r) && Covered(x, Claims(r))
    ensures StrictlyWithin(x, r.cidr)
  {
    var c :| c in Claims(r) && Within(x, c);
    WithinTransitive(x, c, r.cidr);
    SubBlockInOneHalf(c, r.cidr);
  }

  /** What is granted inside a record that lies in a claim of `p` lies strictly in that claim. */
  lemma GrantedBelow(r: Prefix, key: Block, z: Block)
    requires Covered(key, Claims(r)) && StrictlyWithin(z, key)
    ensures Under(z, Claims(r))
  {
    var c :| c in Claims(r) && Within(key, c);
    WithinTransitive(z, key, c);
    SubBlockInOneHalf(z, key);
  }

  /** What is granted by a record around `p` that has claimed `p`'s space is apart from `p`. */
  lemma GrantedAbove(claims: set<Block>, p: Block, z: Block)
    requires Covered(p, claims) && Untouched(z, claims)
    ensures !Overlaps(z, p)
  {
    var c :| c in claims && Within(p, c);
    WithinTransitive(z, p, c);
    SharedSubBlock(p, c, z);
    assert !Overlaps(z, c);
  }

  lemma GrantedApart(key: Block, p: Block, z: Block)
    requires !Overlaps(key, p) && Within(z, key)
    ensures !Overlaps(z, p)
  {
    SharedSubBlock(z, key, p);
    WithinTransitive(p, z, key);
  }

  /** Nothing that lies in a claim of `p` is granted while nothing in that claim is stored. */
  lemma GrantedElsewhere(r: Prefix, key: Block, z: Block, y: Block)
    requires Sound(r) && y in Claims(r) && Covered(key, Claims(r)) && StrictlyWithin(z, key) && !Within(key, y)
    ensures !Within(z, y)
  {
    var c :| c in Claims(r) && Within(key, c);
    WithinTransitive(z, key, c);
    SharedSubBlock(z, c, y);
  }

  // ---- What the other clients see of a step

  /** The records after a step of `c` were there before, or `c` was about to create them. */
  predicate NewByCreator(s: State, t: State, c: nat) {
    forall z | z in t.store :: z in s.store || (c in s.clients && CreatesAt(s.clients[c], z))
  }

  lemma EmptyStays(s: State, t: State, c: nat, pc: Pc, y: Block)
    requires t.clients == s.clients[c := pc] && NewByCreator(s, t, c)
    ensures Empty(s, y) && (pc.Create? ==> !Within(pc.cidr, y)) ==> Empty(t, y)
  {
  }

  /** What client `c` is about to create is no claim of `p`, and in none that is empty. */
  predicate CreatesAside(s: State, pc: Pc, p: Block)
    requires p in s.store
  {
    pc.Create? ==> forall y | y in Claims(s.store[p]) :: pc.cidr != y && (Empty(s, y) ==> !Within(pc.cidr, y))
  }

  /** A claim of `p` that nobody creates is empty once its record is removed. */
  predicate RemovesEmpty(s: State, t: State, p: Block)
    requires p in s.store
  {
    forall y | y in Claims(s.store[p]) && y in s.store && y !in t.store && NobodyCreates(s, y) :: Empty(t, y)
  }

  lemma ReleaseFrame(s: State, t: State, c: nat, pc: Pc, p: Block, d: nat)
    requires t.clients == s.clients[c := pc] && NewByCreator(s, t, c)
    requires p in s.store && p in t.store && t.store[p] == s.store[p]
    requires CreatesAside(s, pc, p) && RemovesEmpty(s, t, p)
    requires d in s.clients && d != c && ReleaseFits(s, s.clients[d], p)
    ensures ReleaseFits(t, t.clients[d], p)
  {
    var pc' := s.clients[d];
    if pc'.RemoveChild? && Winning(pc'.snap, s.store[p], pc'.handle.child) {
      EmptyStays(s, t, c, pc, pc'.handle.child);
    }
    if pc'.Write? && pc'.op.ReleaseChild? && Winning(pc'.snap, s.store[p], pc'.op.child) {
      EmptyStays(s, t, c, pc, pc'.op.child);
    }
  }

  /** Everything but the record of `p`: what a step of `c` has to establish about `c` itself. */
  lemma ClientsFrame(s: State, t: State, c: nat, pc: Pc, p: Block)
    requires p in s.store && ClientsFit(s, p) && t.clients == s.clients[c := pc] && NewByCreator(s, t, c)
    requires p in t.store && t.store[p] == s.store[p]
    requires forall z | z in s.store && Within(p, z) :: z in t.store
    requires CreatesAside(s, pc, p) && RemovesEmpty(s, t, p)
    requires pc.Create? ==> pc.parent != Some(p)
    requires CreatorFits(t.store, pc, p) && ReleaseFits(t, pc, p) && AboveFits(t.store, pc, p)
    requires c in s.clients && s.clients[c].Create? ==> OthersDiffer(s, c, p)
    ensures ClientsFit(t, p)
  {
    forall d | d in t.clients
      ensures ReleaseFits(t, t.clients[d], p) && AboveFits(t.store, t.clients[d], p)
      ensures CreatorFits(t.store, t.clients[d], p)
    {
      if d != c {
        ReleaseFrame(s, t, c, pc, p, d);
        assert AboveFits(s.store, s.clients[d], p) && CreatorFits(s.store, s.clients[d], p);
      }
    }
  }

  /** What `c` creates is not what another client creates as a child of `p`. */
  predicate OthersDiffer(s: State, c: nat, p: Block)
    requires c in s.clients && s.clients[c].Create?
  {
    forall d | d in s.clients && d != c && CreatesAt(s.clients[d], s.clients[c].cidr) :: s.clients[d].parent != Some(p)
  }

  predicate Creating(s: State, c: nat) {
    c in s.clients && s.clients[c].Create?
  }

  // ---- One store call at a time

  lemma ApartIsAside(s: State, pc: Pc, p: Block)
    requires p in s.store && s.store[p].cidr == p && Sound(s.store[p]) && (pc.Create? ==> !Overlaps(pc.cidr, p))
    ensures CreatesAside(s, pc, p)
  {
    if pc.Create? {
      forall y | y in Claims(s.store[p])
        ensures !Within(pc.cidr, y)
      {
        WithinTransitive(pc.cidr, y, p);
      }
    }
  }

  /** Calls that change no record, and create nothing in or around `p`. */
  lemma MoveKeepsOrderly(s: State, t: State, c: nat, pc: Pc, p: Block)
    requires Orderly(s, p) && t == s.(clients := s.clients[c := pc]) && !Creating(s, c)
    requires pc.Create? ==> pc.parent.None? && !Overlaps(pc.cidr, p)
    requires ReleaseFits(s, pc, p) && AboveFits(s.store, pc, p)
    ensures Orderly(t, p)
  {
    ApartIsAside(s, pc, p);
    ReleaseMoves(s, t, c, pc, p);
    ClientsFrame(s, t, c, pc, p);
  }

  lemma ReleaseMoves(s: State, t: State, c: nat, pc: Pc, p: Block)
    requires p in s.store && t == s.(clients := s.clients[c := pc]) && ReleaseFits(s, pc, p)
    ensures ReleaseFits(t, pc, p)
  {
  }

  /** A hollow record is removed: nothing is left in it. */
  lemma HollowIsEmpty(s: State, t: State, c: nat, pc: Pc, gone: Block)
    requires t.store == s.store - {gone} && t.clients == s.clients[c := pc] && !pc.Create?
    requires Hollow(s, gone) && NobodyCreates(s, gone)
    ensures Empty(t, gone)
  {
  }

  /** A record other than that of `p` goes away. */
  lemma RemoveKeepsOrderly(s: State, t: State, c: nat, pc: Pc, gone: Block, p: Block)
    requires Orderly(s, p) && gone != p && !Creating(s, c)
    requires t == s.(store := s.store - {gone}, clients := s.clients[c := pc]) && !pc.Create?
    requires gone in s.store && Overlaps(gone, p) ==> Hollow(s, gone)
    requires ReleaseFits(t, pc, p) && AboveFits(t.store, pc, p)
    ensures Orderly(t, p)
  {
    if gone in s.store && Within(gone, p) && NobodyCreates(s, gone) {
      HollowIsEmpty(s, t, c, pc, gone);
    }
    assert RemovesEmpty(s, t, p);
    assert gone in s.store && Within(p, gone) ==> !Hollow(s, gone);
    ClientsFrame(s, t, c, pc, p);
  }

  /** A client files the record it set out to create. */
  lemma CreateKeepsOrderly(s: State, t: State, c: nat, p: Block)
    requires Orderly(s, p) && Creating(s, c)
    requires var pc := s.clients[c];
             t == s.(store := if pc.cidr in s.store then s.store else s.store[pc.cidr := Fresh(pc.cidr, pc.parent)],
                     clients := s.clients[c := Idle])
    ensures Orderly(t, p)
  {
    var pc := s.clients[c];
    assert CreatorFits(s.store, pc, p);
    CreatedIsCovered(s, pc, p);
    CreatorsDiffer(s, c, p);
    ClientsFrame(s, t, c, Idle, p);
  }

  lemma CreatedIsCovered(s: State, pc: Pc, p: Block)
    requires p in s.store && CreatorFits(s.store, pc, p) && pc.Create?
    ensures StrictlyWithin(pc.cidr, p) ==> Covered(pc.cidr, Claims(s.store[p]))
  {
    if StrictlyWithin(pc.cidr, p) && pc.parent != Some(p) {
      var c :| c in Claims(s.store[p]) && StrictlyWithin(pc.cidr, c);
    }
  }

  lemma CreatorsDiffer(s: State, c: nat, p: Block)
    requires Orderly(s, p) && Creating(s, c)
    ensures OthersDiffer(s, c, p)
  {
    forall d | d in s.clients && d != c && CreatesAt(s.clients[d], s.clients[c].cidr)
      ensures s.clients[d].parent != Some(p)
    {
      assert CreatorFits(s.store, s.clients[c], p) && CreatorFits(s.store, s.clients[d], p);
      if s.clients[d].parent == Some(p) {
        ClaimsDoNotNest(s.store[p], s.clients[d].cidr);
      }
    }
  }

  /** A granted child of another record, stored at the time, is aside from `p` or under a claim of it. */
  lemma GrantAside(s: State, pc: Pc, key: Block, claims: set<Block>, p: Block)
    requires RecordFits(s, p) && key in s.store && key != p && pc.Create? && pc.parent == Some(key)
    requires StrictlyWithin(pc.cidr, key) && Untouched(pc.cidr, claims)
    requires StrictlyWithin(p, key) ==> Covered(p, claims)
    ensures CreatesAside(s, pc, p) && CreatorFits(s.store, pc, p)
  {
    var z, r := pc.cidr, s.store[p];
    if StrictlyWithin(key, p) {
      GrantedBelow(r, key, z);
      SubBlockInOneHalf(key, p);
      SubBlockInOneHalf(z, key);
      forall y | y in Claims(r)
        ensures z != y && (Empty(s, y) ==> !Within(z, y))
      {
        ClaimsDoNotNest(r, y);
        if !Within(key, y) {
          GrantedElsewhere(r, key, z, y);
        }
      }
    } else {
      if StrictlyWithin(p, key) {
        GrantedAbove(claims, p, z);
      } else {
        GrantedApart(key, p, z);
      }
      ApartIsAside(s, pc, p);
    }
  }

  /** A commit on some other record changes no claim of `p`. */
  lemma OtherCommitKeepsOrderly(s: State, t: State, c: nat, pc: Pc, key: Block, rec: Prefix, p: Block)
    requires Orderly(s, p) && key != p && key in s.store && !Creating(s, c)
    requires t.store == s.store[key := rec] && t.clients == s.clients[c := pc]
    requires StrictlyWithin(p, key) ==> Covered(p, Claims(rec))
    requires pc.Idle? || (pc.Create? && CreatesAside(s, pc, p) && CreatorFits(s.store, pc, p) && pc.parent != Some(p))
    ensures Orderly(t, p)
  {
    ClientsFrame(s, t, c, pc, p);
  }

  /** A commit on `p` that adds the claim of `pc`, if it creates, and drops only empty claims. */
  predicate ClaimsFollow(s: State, pc: Pc, rec: Prefix, p: Block)
    requires p in s.store
  {
    && (forall y | y in Claims(s.store[p]) && y !in Claims(rec) :: Empty(s, y))
    && (pc.Create? ==> pc.parent == Some(p) && StrictlyWithin(pc.cidr, p) && pc.cidr in Claims(rec)
                       && Untouched(pc.cidr, Claims(s.store[p])))
  }

  lemma ClaimStillCovers(s: State, rec: Prefix, p: Block, z: Block)
    requires p in s.store && Covered(z, Claims(s.store[p]))
    requires forall y | y in Claims(s.store[p]) && y !in Claims(rec) :: Empty(s, y)
    requires z in s.store
    ensures Covered(z, Claims(rec))
  {
    var c :| c in Claims(s.store[p]) && Within(z, c);
    assert c in Claims(rec);
  }

  lemma CreatorStillFits(s: State, rec: Prefix, p: Block, d: nat)
    requires p in s.store && d in s.clients && CreatorFits(s.store, s.clients[d], p)
    requires forall y | y in Claims(s.store[p]) && y !in Claims(rec) :: Empty(s, y)
    ensures CreatorFits(s.store[p := rec], s.clients[d], p)
  {
    var pc := s.clients[d];
    if pc.Create? && pc.parent != Some(p) && StrictlyWithin(pc.cidr, p) {
      var c :| c in Claims(s.store[p]) && StrictlyWithin(pc.cidr, c);
      assert c in Claims(rec);
    }
  }

  /** The granted block is new: not stored, and created by nobody else. */
  lemma GrantIsNew(s: State, pc: Pc, p: Block)
    requires Orderly(s, p) && pc.Create? && StrictlyWithin(pc.cidr, p) && Untouched(pc.cidr, Claims(s.store[p]))
    ensures pc.cidr !in s.store && NobodyCreates(s, pc.cidr)
  {
    forall d | d in s.clients
      ensures !CreatesAt(s.clients[d], pc.cidr)
    {
      assert CreatorFits(s.store, s.clients[d], p);
      if s.clients[d].Create? {
        CreatedIsCovered(s, s.clients[d], p);
      }
    }
  }

  lemma CommitKeepsOrderly(s: State, t: State, c: nat, pc: Pc, rec: Prefix, p: Block)
    requires Orderly(s, p) && Sound(rec) && rec.cidr == p && rec.version > s.store[p].version && !Creating(s, c)
    requires t.store == s.store[p := rec] && t.clients == s.clients[c := pc] && (pc.Idle? || pc.Create?)
    requires SnapshotsCurrent(s, p) && ClaimsFollow(s, pc, rec, p)
    ensures Orderly(t, p)
  {
    forall z | z in t.store && StrictlyWithin(z, p)
      ensures Covered(z, Claims(rec))
    {
      ClaimStillCovers(s, rec, p, z);
    }
    if pc.Create? {
      GrantIsNew(s, pc, p);
      SubBlockInOneHalf(pc.cidr, p);
    }
    forall d | d in t.clients
      ensures CreatorFits(t.store, t.clients[d], p) && ReleaseFits(t, t.clients[d], p)
      ensures AboveFits(t.store, t.clients[d], p)
    {
      if d != c {
        CreatorStillFits(s, rec, p, d);
        assert AboveFits(s.store, s.clients[d], p);
        assert Snap(s.clients[d]).Some? && Snap(s.clients[d]).value.cidr == p ==>
                 Snap(s.clients[d]).value.version <= s.store[p].version;
      }
    }
  }

  // ---- Whole runs

  lemma CommittedClaims(op: Op, r: Prefix)
    requires WellFormed(op) && r.cidr == Target(op) && Sound(r) && Compute(op, r).Ok?
    ensures var (next, outcome) := Compute(op, r).value;
            && (outcome.Child? <==> op.AcquireChild?)
            && (op.AcquireChild? ==> StrictlyWithin(outcome.child, r.cidr) && Untouched(outcome.child, Claims(r))
                                     && Claims(Commit(next)) == Claims(r) + {outcome.child})
            && (op.ReleaseChild? ==> Claims(Commit(next)) == Claims(r) - {op.child})
            && (op.AcquireIp? || op.ReleaseIp? ==> Claims(Commit(next)) == Claims(r))
  {
    var (next, outcome) := Compute(op, r).value;
    assert Claims(Commit(next)) == Claims(next);
    if op.AcquireChild? {
      ClaimIsFree(r, op.want);
    }
  }

  /** The record a client is about to remove. */
  function Removes(pc: Pc): Option<Block> {
    match pc
    case RemoveChild(h, _, _) => Some(h.child)
    case Remove(cidr) => Some(cidr)
    case _ => None
  }

  /** No record in or around `p` is removed while something in it is stored or about to be. */
  predicate Careful(s: State, e: Event, p: Block) {
    e.Step? && e.client in s.clients ==>
      var y := Removes(s.clients[e.client]);
      y.Some? && y.value in s.store && y.value != p && Overlaps(y.value, p) ==> Hollow(s, y.value)
  }

  predicate CarefulRun(s: State, es: seq<Event>, p: Block)
    requires Valid(s) && ValidEvents(es)
  {
    es == [] || (CarefulRun(s, es[..|es| - 1], p) && Careful(Exec(s, es[..|es| - 1]), es[|es| - 1], p))
  }

  lemma OwnSwapKeepsOrderly(s: State, c: nat, pc: Pc, p: Block)
    requires Orderly(s, p) && SnapshotsCurrent(s, p)
    requires c in s.clients && s.clients[c] == pc && pc.Write? && ValidPc(pc)
    requires pc.snap.cidr == p && pc.snap == s.store[p]
    ensures Orderly(Swapped(s, c, pc), p)
  {
    var t := Swapped(s, c, pc);
    CommittedClaims(pc.op, pc.snap);
    ComputeKeepsSound(pc.op, pc.snap);
    var next := Compute(pc.op, pc.snap).value.0;
    assert Sound(Commit(next)) by {
      assert Claims(Commit(next)) == Claims(next);
    }
    assert ReleaseFits(s, pc, p);
    CommitKeepsOrderly(s, t, c, t.clients[c], Commit(next), p);
  }

  /** A commit on a record around `p` still claims the space of `p`. */
  lemma StillCovers(op: Op, snap: Prefix, p: Block)
    requires WellFormed(op) && snap.cidr == Target(op) && Sound(snap) && Compute(op, snap).Ok?
    requires Covered(p, Claims(snap)) && (op.ReleaseChild? ==> !Within(p, op.child))
    ensures Covered(p, Claims(Commit(Compute(op, snap).value.0)))
  {
    CommittedClaims(op, snap);
    var c :| c in Claims(snap) && Within(p, c);
    assert c in Claims(Commit(Compute(op, snap).value.0));
  }

  lemma OtherSwapKeepsOrderly(s: State, c: nat, pc: Pc, p: Block)
    requires Orderly(s, p) && c in s.clients && s.clients[c] == pc && pc.Write? && ValidPc(pc)
    requires pc.snap.cidr != p && pc.snap.cidr in s.store && s.store[pc.snap.cidr].version == pc.snap.version
    ensures Orderly(Swapped(s, c, pc), p)
  {
    var t, key := Swapped(s, c, pc), pc.snap.cidr;
    CommittedClaims(pc.op, pc.snap);
    assert AboveFits(s.store, pc, p);
    var (next, outcome) := Compute(pc.op, pc.snap).value;
    if StrictlyWithin(p, key) {
      StillCovers(pc.op, pc.snap, p);
    }
    if outcome.Child? {
      GrantAside(s, t.clients[c], key, Claims(pc.snap), p);
    }
    OtherCommitKeepsOrderly(s, t, c, t.clients[c], key, Commit(next), p);
  }

  lemma SwapKeepsOrderly(s: State, c: nat, pc: Pc, p: Block)
    requires Orderly(s, p) && SnapshotsCurrent(s, p)
    requires c in s.clients && s.clients[c] == pc && pc.Write? && ValidPc(pc)
    ensures Orderly(Swapped(s, c, pc), p)
  {
    var t, key := Swapped(s, c, pc), pc.snap.cidr;
    assert Snap(pc) == Some(pc.snap);
    if key !in s.store || s.store[key].version != pc.snap.version {
      MoveKeepsOrderly(s, t, c, t.clients[c], p);
    } else if key == p {
      assert Current(Snap(pc).value, s.store[p]);
      OwnSwapKeepsOrderly(s, c, pc, p);
    } else {
      OtherSwapKeepsOrderly(s, c, pc, p);
    }
  }

  lemma BeginKeepsOrderly(s: State, c: nat, p: Block)
    requires Valid(s) && Orderly(s, p) && c in s.clients && s.clients[c].Read?
    ensures Orderly(Advance(s, c), p)
  {
    var t := Advance(s, c);
    var pc := t.clients[c];
    assert Snap(pc).Some? ==> Snap(pc).value.cidr in s.store && Snap(pc).value == s.store[Snap(pc).value.cidr];
    assert pc.Create? ==> !Overlaps(p, pc.cidr);
    MoveKeepsOrderly(s, t, c, pc, p);
  }

  /** A stored claim of `p` is created by nobody. */
  lemma StoredClaimIsNotCreated(s: State, x: Block, p: Block)
    requires Orderly(s, p) && x in Claims(s.store[p]) && x in s.store
    ensures NobodyCreates(s, x)
  {
    ClaimsDoNotNest(s.store[p], x);
    forall d | d in s.clients
      ensures !CreatesAt(s.clients[d], x)
    {
      assert CreatorFits(s.store, s.clients[d], p);
    }
  }

  lemma ReadChildKeepsOrderly(s: State, c: nat, p: Block)
    requires Valid(s) && Orderly(s, p) && c in s.clients && s.clients[c].ReadChild?
    ensures Orderly(Advance(s, c), p)
  {
    var t, h := Advance(s, c), s.clients[c].handle;
    assert AboveFits(s.store, s.clients[c], p);
    if h.child in s.store && h.child in Claims(s.store[p]) {
      StoredClaimIsNotCreated(s, h.child, p);
    }
    MoveKeepsOrderly(s, t, c, t.clients[c], p);
  }

  lemma RemoveChildKeepsOrderly(s: State, c: nat, p: Block)
    requires Valid(s) && Orderly(s, p) && c in s.clients && s.clients[c].RemoveChild?
    requires Careful(s, Step(c), p) && p in Advance(s, c).store
    ensures Orderly(Advance(s, c), p)
  {
    var t, pc := Advance(s, c), s.clients[c];
    var y := pc.handle.child;
    assert AboveFits(s.store, pc, p) && ReleaseFits(s, pc, p);
    assert Within(p, y) ==> !Hollow(s, y);
    if Winning(pc.snap, s.store[p], y) {
      if y in s.store {
        HollowIsEmpty(s, t, c, t.clients[c], y);
      } else {
        EmptyStays(s, t, c, t.clients[c], y);
      }
    }
    RemoveKeepsOrderly(s, t, c, t.clients[c], y, p);
  }

  lemma StepKeepsOrderly(s: State, e: Event, p: Block)
    requires Valid(s) && ValidEvent(e) && Orderly(s, p) && SnapshotsCurrent(s, p)
    requires Careful(s, e, p) && p in Do(s, e).store
    ensures Orderly(Do(s, e), p)
  {
    var t, c := Do(s, e), e.client;
    if t == s {
    } else if e.Invoke? {
      MoveKeepsOrderly(s, t, c, t.clients[c], p);
    } else {
      var pc := s.clients[c];
      assert ValidPc(pc);
      match pc
      case Idle =>
      case Read(_, _) => BeginKeepsOrderly(s, c, p);
      case ReadChild(_, _, _) => ReadChildKeepsOrderly(s, c, p);
      case RemoveChild(_, _, _) => RemoveChildKeepsOrderly(s, c, p);
      case Write(_, _, _, _) => SwapKeepsOrderly(s, c, pc, p);
      case Create(_, _) => CreateKeepsOrderly(s, t, c, p);
      case Remove(gone) => RemoveKeepsOrderly(s, t, c, t.clients[c], gone, p);
    }
  }

  lemma {:induction false} OrderlyThroughout(s: State, es: seq<Event>, p: Block)
    requires Quiet(s) && ValidEvents(es) && Undeleted(s, es, p) && CarefulRun(s, es, p)
    requires p in s.store && SpaceClaimed(s.store, p) && AboveClaims(s.store, p)
    ensures Orderly(Exec(s, es), p)
  {
    if es != [] {
      var n := |es| - 1;
      OrderlyThroughout(s, es[..n], p);
      SerialThroughout(s, es[..n], p);
      StepKeepsOrderly(Exec(s, es[..n]), es[n], p);
    }
  }

  /**
   In every careful run on an undeleted prefix, claims are disjoint and inside, and every
   record inside, at any depth and also one still to be created, lies in a claim. So the
   prefix never hands out space that is in use.
   */
  lemma SpaceStaysClaimed(s: State, es: seq<Event>, p: Block)
    requires Quiet(s) && ValidEvents(es) && Undeleted(s, es, p) && CarefulRun(s, es, p)
    requires p in s.store && SpaceClaimed(s.store, p) && AboveClaims(s.store, p)
    ensures var t := Exec(s, es);
            && (forall x, y | x in Claims(t.store[p]) && y in Claims(t.store[p]) && x != y :: !Overlaps(x, y))
            && (forall x | x in Claims(t.store[p]) :: StrictlyWithin(x, p))
            && AllCovered(t, p, Claims(t.store[p]))
  {
    OrderlyThroughout(s, es, p);
    var t := Exec(s, es);
    forall c | c in t.clients && t.clients[c].Create?
      ensures StrictlyWithin(t.clients[c].cidr, p) ==> Covered(t.clients[c].cidr, Claims(t.store[p]))
    {
      CreatedIsCovered(t, t.clients[c], p);
    }
  }

  // ---- Children are claimed themselves

  predicate ChildrenClaimed(store: Store, p: Block)
    requires p in store
  {
    forall x | x in store && store[x].parent == Some(p) :: StrictlyWithin(x, p) && x in Claims(store[p])
  }

  /**
   A write that passes on a record created anew since it was read, and puts back that it is a
   child of `p`, which no longer claims it.
   */
  predicate RestoresParent(s: State, e: Event, p: Block)
    requires p in s.store
  {
    && e.Step? && e.client in s.clients && s.clients[e.client].Write?
    && var snap := s.clients[e.client].snap;
       && snap.cidr != p && snap.cidr in s.store && s.store[snap.cidr].version == snap.version
       && snap.parent == Some(p) && snap.cidr !in Claims(s.store[p])
  }

  lemma OwnCommitKeepsChildren(store: Store, rec: Prefix, p: Block)
    requires p in store && ChildrenClaimed(store, p) && rec.parent == store[p].parent
    requires forall y | y in Claims(store[p]) && y !in Claims(rec) :: y !in store
    ensures ChildrenClaimed(store[p := rec], p)
  {
  }

  lemma OtherCommitKeepsChildrenIff(store: Store, key: Block, rec: Prefix, p: Block)
    requires p in store && Sound(store[p]) && store[p].cidr == p && key != p && ChildrenClaimed(store, p)
    ensures ChildrenClaimed(store[key := rec], p) <==> (rec.parent == Some(p) ==> key in Claims(store[p]))
  {
    if rec.parent == Some(p) && key !in Claims(store[p]) {
      assert store[key := rec][key] == rec;
    }
  }

  lemma SwapKeepsChildrenIff(s: State, c: nat, pc: Pc, p: Block)
    requires Orderly(s, p) && ChildrenClaimed(s.store, p) && SnapshotsCurrent(s, p)
    requires c in s.clients && s.clients[c] == pc && pc.Write? && ValidPc(pc)
    requires p in Swapped(s, c, pc).store
    ensures ChildrenClaimed(Swapped(s, c, pc).store, p) <==> !RestoresParent(s, Step(c), p)
  {
    var key := pc.snap.cidr;
    if key in s.store && s.store[key].version == pc.snap.version {
      CommittedClaims(pc.op, pc.snap);
      ComputeKeepsSound(pc.op, pc.snap);
      var rec := Commit(Compute(pc.op, pc.snap).value.0);
      if key == p {
        assert Current(Snap(pc).value, s.store[p]) && ReleaseFits(s, pc, p);
        OwnCommitKeepsChildren(s.store, rec, p);
      } else {
        OtherCommitKeepsChildrenIff(s.store, key, rec, p);
      }
    }
  }

  /** Exactly such a write breaks it that children are claimed. */
  lemma StepKeepsChildrenIff(s: State, e: Event, p: Block)
    requires Valid(s) && ValidEvent(e) && Orderly(s, p) && SnapshotsCurrent(s, p)
    requires p in Do(s, e).store && ChildrenClaimed(s.store, p)
    ensures ChildrenClaimed(Do(s, e).store, p) <==> !RestoresParent(s, e, p)
  {
    if e.Step? && e.client in s.clients {
      var pc := s.clients[e.client];
      assert ValidPc(pc) && CreatorFits(s.store, pc, p);
      if pc.Write? {
        SwapKeepsChildrenIff(s, e.client, pc, p);
      }
    }
  }

  /** Some write of the run does that. */
  predicate RestoresDuring(s: State, es: seq<Event>, p: Block)
    requires Valid(s) && ValidEvents(es) && Undeleted(s, es, p)
  {
    es != [] &&
    var front := es[..|es| - 1];
    RestoresDuring(s, front, p) || RestoresParent(Exec(s, front), es[|es| - 1], p)
  }

  /** The stored children of `p` are claimed after every event of the run. */
  predicate ChildrenStayClaimed(s: State, es: seq<Event>, p: Block)
    requires Valid(s) && ValidEvents(es) && Undeleted(s, es, p)
  {
    ChildrenClaimed(Exec(s, es).store, p) && (es == [] || ChildrenStayClaimed(s, es[..|es| - 1], p))
  }

  /** In a careful run, the stored children are claimed all along exactly if no write restores an old parent. */
  lemma {:induction false} ChildrenStayClaimedIff(s: State, es: seq<Event>, p: Block)
    requires Quiet(s) && ValidEvents(es) && Undeleted(s, es, p) && CarefulRun(s, es, p)
    requires p in s.store && SpaceClaimed(s.store, p) && AboveClaims(s.store, p) && ChildrenClaimed(s.store, p)
    ensures ChildrenStayClaimed(s, es, p) <==> !RestoresDuring(s, es, p)
  {
    if es != [] {
      var n := |es| - 1;
      ChildrenStayClaimedIff(s, es[..n], p);
      OrderlyThroughout(s, es[..n], p);
      SerialThroughout(s, es[..n], p);
      if ChildrenStayClaimed(s, es[..n], p) {
        StepKeepsChildrenIff(Exec(s, es[..n]), es[n], p);
      }
    }
  }

  /** Then every stored child of the prefix is itself claimed by it. */
  lemma StoredChildrenStayClaimed(s: State, es: seq<Event>, p: Block)
    requires Quiet(s) && ValidEvents(es) && Undeleted(s, es, p) && CarefulRun(s, es, p) && !RestoresDuring(s, es, p)
    requires p in s.store && SpaceClaimed(s.store, p) && AboveClaims(s.store, p) && ChildrenClaimed(s.store, p)
    ensures var store := Exec(s, es).store;
            forall x | x in store && store[x].parent == Some(p) :: x in Claims(store[p]) && StrictlyWithin(x, p)
  {
    ChildrenStayClaimedIff(s, es, p);
  }

  // ---- When a claim may be given up

  /** A block lies in at most one claim, so without it only what lies elsewhere is covered. */
  lemma LeftCovers(r: Prefix, z: Block, y: Block)
    requires Sound(r) && y in Claims(r)
    ensures Covered(z, Claims(r)) ==> (Covered(z, Claims(r) - {y}) <==> !Within(z, y))
    ensures Within(z, y) ==> StrictlyWithin(z, r.cidr) && Covered(z, Claims(r))
  {
    forall c | c in Claims(r) && Within(z, c) && Within(z, y)
      ensures c == y
    {
      SharedSubBlock(z, c, y);
    }
    if Within(z, y) {
      CoveredIsInside(r, z);
    }
  }

  ghost predicate NoneWithin(s: State, y: Block) {
    forall z | Occupied(s, z) :: !Within(z, y)
  }

  lemma CoveredWithoutIff(s: State, r: Prefix, y: Block)
    requires Sound(r) && y in Claims(r) && AllCovered(s, r.cidr, Claims(r))
    ensures AllCovered(s, r.cidr, Claims(r) - {y}) <==> NoneWithin(s, y)
  {
    forall z: Block
      ensures Covered(z, Claims(r)) ==> (Covered(z, Claims(r) - {y}) <==> !Within(z, y))
      ensures Within(z, y) ==> StrictlyWithin(z, r.cidr) && Covered(z, Claims(r))
    {
      LeftCovers(r, z, y);
    }
  }

  lemma EmptyMeansNone(s: State, y: Block)
    ensures Empty(s, y) <==> NoneWithin(s, y)
  {
    if NoneWithin(s, y) {
      forall c | c in s.clients && s.clients[c].Create?
        ensures !Within(s.clients[c].cidr, y)
      {
        assert Occupied(s, s.clients[c].cidr);
      }
    }
  }

  /** Giving a claim up keeps everything inside claimed exactly when nothing in it is stored or about to be. */
  lemma GivingUpIsSafeIff(s: State, c: nat, y: Block, p: Block)
    requires p in s.store && s.store[p].cidr == p && Sound(s.store[p]) && AllCovered(s, p, Claims(s.store[p]))
    requires c in s.clients && s.clients[c].Write? && ValidPc(s.clients[c]) && s.clients[c].op == ReleaseChild(p, y)
    requires s.clients[c].snap == s.store[p] && y in Claims(s.store[p])
    ensures var t := Swapped(s, c, s.clients[c]);
            AllCovered(t, p, Claims(t.store[p])) <==> Empty(s, y)
  {
    var pc, t := s.clients[c], Swapped(s, c, s.clients[c]);
    CommittedClaims(pc.op, pc.snap);
    CoveredWithoutIff(s, s.store[p], y);
    EmptyMeansNone(s, y);
    forall z: Block
      ensures Occupied(t, z) <==> Occupied(s, z)
    {
      SameOccupied(s, t, c, z);
    }
  }

  lemma SameOccupied(s: State, t: State, c: nat, z: Block)
    requires c in s.clients && !s.clients[c].Create? && t.clients == s.clients[c := Idle]
    requires t.store.Keys == s.store.Keys
    ensures Occupied(t, z) <==> Occupied(s, z)
  {
    if !NobodyCreates(s, z) {
      var d :| d in s.clients && CreatesAt(s.clients[d], z);
      assert CreatesAt(t.clients[d], z);
    }
  }
}
