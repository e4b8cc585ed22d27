/**
 Any number of clients of one ipamer namespace, interleaved at the granularity of the
 store's locked methods. A client reads a snapshot, computes, and writes back with a
 compare-and-swap on `version`; acquiring or releasing a child takes further store calls.
 A run is any list of events, so a run that stops half way through a request is a run too.
 */
module Clients {
  import opened Wrappers
  import opened Cidr
  import opened FreeSet
  import opened Prefixes

  type Store = map<Block, Prefix>

  /** The `*Prefix` a caller passes to ReleaseChildPrefix. */
  datatype Handle = Handle(child: Block, parent: Option<Block>, ipCount: nat)

  datatype Request =
    | Swap(op: Op)
    | Release(handle: Handle)
    | NewPrefix(cidr: Block)
    | DeletePrefix(cidr: Block)

  /** Where a client is: each constructor but `Idle` names the store call that comes next. */
  datatype Pc =
    | Idle
    | Read(request: Request, attempt: nat)
    | ReadChild(handle: Handle, snap: Prefix, attempt: nat)
    | RemoveChild(handle: Handle, snap: Prefix, attempt: nat)
    | Write(request: Request, op: Op, snap: Prefix, attempt: nat)
    | Create(cidr: Block, parent: Option<Block>)
    | Remove(cidr: Block)

  /** A successful compare-and-swap and what its caller was given. */
  datatype Entry = Entry(op: Op, outcome: Outcome)

  datatype State = State(store: Store, clients: map<nat, Pc>, log: seq<Entry>)

  datatype Event = Invoke(client: nat, request: Request) | Step(client: nat)

  const ATTEMPTS: nat := 10

  predicate ValidRequest(r: Request) {
    r.Swap? ==> WellFormed(r.op) && !r.op.ReleaseChild?
  }

  function ReleaseOp(h: Handle): Op
    requires h.parent.Some?
  {
    ReleaseChild(h.parent.value, h.child)
  }

  predicate ValidSnap(snap: Prefix, op: Op) {
    Sound(snap) && WellFormed(op) && snap.cidr == Target(op) && Compute(op, snap).Ok?
  }

  predicate ValidPc(pc: Pc) {
    match pc
    case Idle => true
    case Read(request, attempt) => ValidRequest(request) && 1 <= attempt <= ATTEMPTS
    case ReadChild(h, snap, attempt) => h.parent.Some? && ValidSnap(snap, ReleaseOp(h)) && 1 <= attempt <= ATTEMPTS
    case RemoveChild(h, snap, attempt) => h.parent.Some? && ValidSnap(snap, ReleaseOp(h)) && 1 <= attempt <= ATTEMPTS
    case Write(request, op, snap, attempt) =>
      && ValidRequest(request) && ValidSnap(snap, op) && 1 <= attempt <= ATTEMPTS
      && (request == Swap(op) || (request.Release? && request.handle.parent.Some? && op == ReleaseOp(request.handle)))
    case Create(_, _) => true
    case Remove(_) => true
  }

  /** Records are filed under their CIDR and are sound; so are all snapshots. */
  predicate Valid(s: State) {
    && (forall k | k in s.store :: s.store[k].cidr == k && Sound(s.store[k]))
    && (forall c | c in s.clients :: ValidPc(s.clients[c]))
  }

  predicate OverlapsStored(store: Store, cidr: Block) {
    exists k | k in store :: Overlaps(k, cidr)
  }

  /** The read that starts a request, and the computation that follows it. */
  function Begin(store: Store, request: Request, attempt: nat): (pc: Pc)
    requires forall k | k in store :: store[k].cidr == k && Sound(store[k])
    requires ValidRequest(request) && 1 <= attempt <= ATTEMPTS
    ensures ValidPc(pc)
  {
    match request
    case Swap(op) =>
      if Target(op) in store && Compute(op, store[Target(op)]).Ok?
      then Write(request, op, store[Target(op)], attempt) else Idle
    case Release(h) =>
      if h.parent.Some? && h.parent.value in store && h.ipCount <= 2
      then ReadChild(h, store[h.parent.value], attempt) else Idle
    case NewPrefix(cidr) =>
      if OverlapsStored(store, cidr) then Idle else Create(cidr, None)
    case DeletePrefix(cidr) =>
      if cidr in store && !HasIps(store[cidr]) then Remove(cidr) else Idle
  }

  /** UpdatePrefix: compare the version, then replace the record. */
  function Swapped(s: State, c: nat, pc: Pc): State
    requires pc.Write? && ValidPc(pc)
  {
    var key := pc.snap.cidr;
    if key !in s.store then s.(clients := s.clients[c := Idle])
    else if s.store[key].version != pc.snap.version then
      s.(clients := s.clients[c := if pc.attempt < ATTEMPTS then Read(pc.request, pc.attempt + 1) else Idle])
    else
      var (next, outcome) := Compute(pc.op, pc.snap).value;
      State(s.store[key := Commit(next)],
            s.clients[c := if outcome.Child? then Create(outcome.child, Some(key)) else Idle],
            s.log + [Entry(pc.op, outcome)])
  }

  function Advance(s: State, c: nat): State
    requires Valid(s) && c in s.clients
  {
    match s.clients[c]
    case Idle => s
    case Read(request, attempt) =>
      s.(clients := s.clients[c := Begin(s.store, request, attempt)])
    case ReadChild(h, snap, attempt) =>
      var found := h.child in s.store && !HasIps(s.store[h.child]);
      s.(clients := s.clients[c := if found then RemoveChild(h, snap, attempt) else Idle])
    case RemoveChild(h, snap, attempt) =>
      s.(store := s.store - {h.child},
         clients := s.clients[c := Write(Release(h), ReleaseOp(h), snap, attempt)])
    case Write(_, _, _, _) => Swapped(s, c, s.clients[c])
    case Create(cidr, parent) =>
      s.(store := if cidr in s.store then s.store else s.store[cidr := Fresh(cidr, parent)],
         clients := s.clients[c := Idle])
    case Remove(cidr) =>
      s.(store := s.store - {cidr}, clients := s.clients[c := Idle])
  }

  predicate ValidEvent(e: Event) {
    e.Invoke? ==> ValidRequest(e.request)
  }

  /** One event: a client that is idle takes a request, or a busy client makes its next store call. */
  function Do(s: State, e: Event): (t: State)
    requires Valid(s) && ValidEvent(e)
    ensures Valid(t)
  {
    match e
    case Invoke(c, request) =>
      if c in s.clients && !s.clients[c].Idle? then s
      else s.(clients := s.clients[c := Read(request, 1)])
    case Step(c) =>
      if c !in s.clients then s
      else
        AdvanceKeepsValid(s, c);
        Advance(s, c)
  }

  lemma SwapKeepsValid(s: State, c: nat, pc: Pc)
    requires Valid(s) && pc.Write? && ValidPc(pc)
    ensures Valid(Swapped(s, c, pc))
  {
    ComputeKeepsSound(pc.op, pc.snap);
    var next := Commit(Compute(pc.op, pc.snap).value.0);
    assert Claims(next) == Claims(Compute(pc.op, pc.snap).value.0);
  }

  lemma AdvanceKeepsValid(s: State, c: nat)
    requires Valid(s) && c in s.clients
    ensures Valid(Advance(s, c))
  {
    var pc := s.clients[c];
    assert ValidPc(pc);
    if pc.Write? {
      SwapKeepsValid(s, c, pc);
    } else if pc.Create? {
      FreshIsSound(pc.cidr, pc.parent);
    }
  }

  predicate ValidEvents(es: seq<Event>) {
    forall e | e in es :: ValidEvent(e)
  }

  function Exec(s: State, es: seq<Event>): (t: State)
    requires Valid(s) && ValidEvents(es)
    ensures Valid(t)
  {
    if es == [] then s else Do(Exec(s, es[..|es| - 1]), es[|es| - 1])
  }

  /** A store that nobody is working on. */
  predicate Quiet(s: State) {
    Valid(s) && s.clients == map[] && s.log == []
  }

  /** The record of `p` is there after every event: it is not deleted during the run. */
  predicate Undeleted(s: State, es: seq<Event>, p: Block)
    requires Valid(s) && ValidEvents(es)
  {
    p in Exec(s, es).store && (es == [] || Undeleted(s, es[..|es| - 1], p))
  }

  // ---- Soundness of every record, in every run

  /**
   Whatever the interleaving, deletions included: in every stored record the claimed
   children are disjoint and inside, and a parent holds no more entries than are reserved
   in a new record. Module `Exclusion` says when that keeps addresses and children apart.
   */
  lemma RecordsStaySound(s: State, es: seq<Event>, p: Block)
    requires Valid(s) && ValidEvents(es) && p in Exec(s, es).store
    ensures var r := Exec(s, es).store[p];
            && Disjoint(Claims(r)) && (forall c | c in Claims(r) :: StrictlyWithin(c, p))
            && (r.isParent ==> |r.ips| <= ReservedCount(p.family))
            && (|r.ips| > ReservedCount(p.family) ==> Claims(r) == {})
  {
    var r := Exec(s, es).store[p];
    assert r.cidr == p && Sound(r);
  }
}
