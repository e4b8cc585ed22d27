/**
 A compare-and-swap on an undeleted record is an atomic read-modify-write: every
 interleaving gives the record, and the callers, exactly what running the successful
 operations one after the other, in commit order, would give.
 */
module Atomicity {
  import opened Wrappers
  import opened Cidr
  import opened Prefixes
  import opened Clients

  /** The commits on one record, in order. */
  function CommitsOn(log: seq<Entry>, p: Block): (r: seq<Entry>)
    ensures forall e | e in r :: Target(e.op) == p
  {
    if log == [] then []
    else
      var e, before := log[|log| - 1], CommitsOn(log[..|log| - 1], p);
      if Target(e.op) == p then before + [e] else before
  }

  /**
   The reference: run the operations one at a time on the record. None if some operation
   fails or hands out something else than its entry says.
   */
  function Replay(r: Prefix, entries: seq<Entry>): Option<Prefix> {
    if entries == [] then Some(r)
    else
      var before := Replay(r, entries[..|entries| - 1]);
      var e := entries[|entries| - 1];
      if before.None? || !WellFormed(e.op) || Target(e.op) != before.value.cidr then None
      else
        var now := Compute(e.op, before.value);
        if now.Err? || now.value.1 != e.outcome then None else Some(Commit(now.value.0))
  }

  function Snap(pc: Pc): Option<Prefix> {
    match pc
    case ReadChild(_, snap, _) => Some(snap)
    case RemoveChild(_, snap, _) => Some(snap)
    case Write(_, _, snap, _) => Some(snap)
    case _ => None
  }

  /** A snapshot that still has the record's version is still the record. */
  predicate Current(snap: Prefix, r: Prefix) {
    snap.version <= r.version && (snap.version == r.version ==> snap == r)
  }

  predicate SnapshotsCurrent(s: State, p: Block)
    requires p in s.store
  {
    forall c | c in s.clients ::
      var snap := Snap(s.clients[c]);
      snap.Some? && snap.value.cidr == p ==> Current(snap.value, s.store[p])
  }

  predicate Serial(s: State, p: Block, r: Prefix) {
    && p in s.store
    && SnapshotsCurrent(s, p)
    && Replay(r, CommitsOn(s.log, p)) == Some(s.store[p])
  }

  lemma CommitsOnAppend(log: seq<Entry>, e: Entry, p: Block)
    ensures CommitsOn(log + [e], p) == if Target(e.op) == p then CommitsOn(log, p) + [e] else CommitsOn(log, p)
  {
    assert (log + [e])[..|log|] == log;
  }

  lemma ReplayAppend(r: Prefix, entries: seq<Entry>, e: Entry, now: Prefix)
    requires Replay(r, entries) == Some(now)
    requires WellFormed(e.op) && Target(e.op) == now.cidr
    requires Compute(e.op, now).Ok? && Compute(e.op, now).value.1 == e.outcome
    ensures Replay(r, entries + [e]) == Some(Commit(Compute(e.op, now).value.0))
  {
    assert (entries + [e])[..|entries|] == entries;
  }

  /** A step that leaves the record and the log alone, and takes only current snapshots. */
  lemma FrameKeepsSerial(s: State, t: State, c: nat, pc: Pc, p: Block, r: Prefix)
    requires Serial(s, p, r) && p in t.store && t.store[p] == s.store[p] && t.log == s.log
    requires t.clients == s.clients[c := pc]
    requires Snap(pc).Some? && Snap(pc).value.cidr == p ==> Current(Snap(pc).value, s.store[p])
    ensures Serial(t, p, r)
  {
  }

  /** A write that passes the version check on `p`. */
  lemma CommitKeepsSerial(s: State, t: State, c: nat, pc: Pc, op: Op, next: Prefix, outcome: Outcome, p: Block,
                          r: Prefix)
    requires Serial(s, p, r) && s.store[p].cidr == p && WellFormed(op) && Target(op) == p
    requires Compute(op, s.store[p]) == Ok((next, outcome)) && next.version == s.store[p].version
    requires t == State(s.store[p := Commit(next)], s.clients[c := pc], s.log + [Entry(op, outcome)])
    requires Snap(pc).None?
    ensures Serial(t, p, r)
  {
    CommitsOnAppend(s.log, Entry(op, outcome), p);
    ReplayAppend(r, CommitsOn(s.log, p), Entry(op, outcome), s.store[p]);
  }

  /** A write that passes the version check on some other record. */
  lemma OtherCommitKeepsSerial(s: State, t: State, c: nat, pc: Pc, key: Block, rec: Prefix, e: Entry, p: Block,
                               r: Prefix)
    requires Serial(s, p, r) && key != p && Target(e.op) == key && Snap(pc).None?
    requires t == State(s.store[key := rec], s.clients[c := pc], s.log + [e])
    ensures Serial(t, p, r)
  {
    CommitsOnAppend(s.log, e, p);
    FrameKeepsSerial(s, t.(log := s.log), c, pc, p, r);
  }

  lemma SwapKeepsSerial(s: State, c: nat, pc: Pc, p: Block, r: Prefix)
    requires Serial(s, p, r) && s.store[p].cidr == p
    requires pc.Write? && ValidPc(pc) && (pc.snap.cidr == p ==> Current(pc.snap, s.store[p]))
    ensures Serial(Swapped(s, c, pc), p, r)
  {
    var t, key := Swapped(s, c, pc), pc.snap.cidr;
    if key in s.store && s.store[key].version == pc.snap.version {
      ComputeKeepsSound(pc.op, pc.snap);
      var (next, outcome) := Compute(pc.op, pc.snap).value;
      if key == p {
        CommitKeepsSerial(s, t, c, t.clients[c], pc.op, next, outcome, p, r);
      } else {
        OtherCommitKeepsSerial(s, t, c, t.clients[c], key, Commit(next), Entry(pc.op, outcome), p, r);
      }
    } else {
      FrameKeepsSerial(s, t, c, t.clients[c], p, r);
    }
  }

  lemma StepKeepsSerial(s: State, e: Event, p: Block, r: Prefix)
    requires Valid(s) && ValidEvent(e) && Serial(s, p, r) && p in Do(s, e).store
    ensures Serial(Do(s, e), p, r)
  {
    var t, c := Do(s, e), e.client;
    if t == s {
    } else if e.Step? && s.clients[c].Write? {
      SwapKeepsSerial(s, c, s.clients[c], p, r);
    } else {
      assert c in s.clients ==> ValidPc(s.clients[c]);
      FrameKeepsSerial(s, t, c, t.clients[c], p, r);
    }
  }

  lemma {:induction false} SerialThroughout(s: State, es: seq<Event>, p: Block)
    requires Quiet(s) && ValidEvents(es) && Undeleted(s, es, p)
    ensures p in s.store && Serial(Exec(s, es), p, s.store[p])
  {
    if es != [] {
      var n := |es| - 1;
      SerialThroughout(s, es[..n], p);
      StepKeepsSerial(Exec(s, es[..n]), es[n], p, s.store[p]);
    }
  }

  /** The record is what the commits give when run one after the other, outcomes included. */
  lemma RunIsSerial(s: State, es: seq<Event>, p: Block)
    requires Quiet(s) && ValidEvents(es) && Undeleted(s, es, p)
    ensures p in s.store
    ensures Replay(s.store[p], CommitsOn(Exec(s, es).log, p)) == Some(Exec(s, es).store[p])
  {
    SerialThroughout(s, es, p);
  }

  /** The version counts the commits. */
  lemma {:induction false} ReplayCountsVersions(r: Prefix, entries: seq<Entry>)
    requires Sound(r) && Replay(r, entries).Some?
    ensures var now := Replay(r, entries).value;
            Sound(now) && now.cidr == r.cidr && now.version == r.version + |entries|
  {
    if entries != [] {
      var n := |entries| - 1;
      ReplayCountsVersions(r, entries[..n]);
      ComputeKeepsSound(entries[n].op, Replay(r, entries[..n]).value);
    }
  }

  /** At any point of the run, a write that passes the version check sees the current record. */
  lemma PassingWriteIsAtomic(s: State, es: seq<Event>, p: Block, c: nat)
    requires Quiet(s) && ValidEvents(es) && Undeleted(s, es, p)
    requires var t := Exec(s, es); c in t.clients && t.clients[c].Write? && t.clients[c].snap.cidr == p
    ensures var t := Exec(s, es);
            var pc := t.clients[c];
            && (pc.snap.version == t.store[p].version ==>
                  && Compute(pc.op, t.store[p]).Ok?
                  && Advance(t, c).store[p] == Commit(Compute(pc.op, t.store[p]).value.0))
            && (pc.snap.version != t.store[p].version ==> Advance(t, c).store == t.store)
  {
    SerialThroughout(s, es, p);
    var t := Exec(s, es);
    assert Current(Snap(t.clients[c]).value, t.store[p]);
  }

}
