/**
 Addresses handed out to callers. As long as callers release only what they hold, no two
 outstanding addresses of an undeleted prefix are equal, whatever the interleaving.
 */
module Addresses {
  import opened Wrappers
  import opened Cidr
  import opened Prefixes
  import opened Clients
  import opened Atomicity

  /** The outstanding addresses of `p`: handed out by a commit and not released by a later one. */
  function Held(log: seq<Entry>, p: Block): multiset<nat> {
    if log == [] then multiset{}
    else
      var e, before := log[|log| - 1], Held(log[..|log| - 1], p);
      if Target(e.op) != p then before
      else if e.outcome.Ip? then before + multiset{e.outcome.ip}
      else if e.op.ReleaseIp? then before - multiset{e.op.addr.value}
      else before
  }

  predicate Releasing(pc: Pc, p: Block, a: nat) {
    (pc.Read? || pc.Write?) && pc.request == Swap(ReleaseIp(p, Addr(p.family, a)))
  }

  predicate NobodyReleases(s: State, p: Block, a: nat) {
    forall c | c in s.clients :: !Releasing(s.clients[c], p, a)
  }

  /** A release of an address of `p` is issued only by its holder, and once. */
  predicate ByHolder(s: State, e: Event, p: Block) {
    e.Invoke? && e.request.Swap? && e.request.op.ReleaseIp? && e.request.op.prefix == p ==>
      var addr := e.request.op.addr;
      addr.family == p.family && addr.value in Held(s.log, p) && NobodyReleases(s, p, addr.value)
  }

  predicate Disciplined(s: State, es: seq<Event>, p: Block)
    requires Valid(s) && ValidEvents(es)
  {
    es == [] || (Disciplined(s, es[..|es| - 1], p) && ByHolder(Exec(s, es[..|es| - 1]), es[|es| - 1], p))
  }

  predicate EntriesAccounted(r: Prefix, log: seq<Entry>) {
    && multiset(r.ips) == multiset(Reserved(r.cidr)) + Held(log, r.cidr)
    && forall a | a in r.ips :: HasAddr(r.cidr, a)
  }

  ghost predicate ReleasesHeld(s: State, p: Block) {
    && (forall c, a: nat | c in s.clients && Releasing(s.clients[c], p, a) :: a in Held(s.log, p))
    && (forall c, d, a: nat | c in s.clients && d in s.clients && c != d && Releasing(s.clients[c], p, a) ::
          !Releasing(s.clients[d], p, a))
  }

  ghost predicate Accounted(s: State, p: Block) {
    && p in s.store && s.store[p].cidr == p
    && EntriesAccounted(s.store[p], s.log)
    && ReleasesHeld(s, p)
  }

  lemma HeldAppend(log: seq<Entry>, e: Entry, p: Block)
    ensures Held(log + [e], p) ==
            if Target(e.op) != p then Held(log, p)
            else if e.outcome.Ip? then Held(log, p) + multiset{e.outcome.ip}
            else if e.op.ReleaseIp? then Held(log, p) - multiset{e.op.addr.value}
            else Held(log, p)
  {
    assert (log + [e])[..|log|] == log;
  }

  /** An address that is handed out was free and is in the prefix. */
  lemma TakenIpWasFree(p: Prefix, ip: Option<Addr>)
    requires TakeIp(p, ip).Ok?
    ensures var (q, out) := TakeIp(p, ip).value;
            && out.Ip? && out.ip !in p.ips && HasAddr(p.cidr, out.ip)
            && q == p.(ips := p.ips + {out.ip})
            && (ip.Some? ==> out.ip == ip.value.value)
            && (ip.None? ==> forall a | p.cidr.First() <= a < out.ip :: a in p.ips)
  {
  }

  /** What a commit does to the entries of its record. */
  lemma CommitAccounts(op: Op, r: Prefix, log: seq<Entry>)
    requires WellFormed(op) && r.cidr == Target(op) && EntriesAccounted(r, log)
    requires Compute(op, r).Ok?
    requires op.ReleaseIp? ==> op.addr.value in Held(log, r.cidr)
    ensures var (next, outcome) := Compute(op, r).value;
            EntriesAccounted(Commit(next), log + [Entry(op, outcome)])
  {
    var (next, outcome) := Compute(op, r).value;
    HeldAppend(log, Entry(op, outcome), r.cidr);
    match op
    case AcquireIp(_, ip) =>
      TakenIpWasFree(r, ip);
      assert multiset(next.ips) == multiset(r.ips) + multiset{outcome.ip};
    case ReleaseIp(_, addr) =>
      assert multiset(next.ips) == multiset(r.ips) - multiset{addr.value};
    case AcquireChild(_, want) =>
      ClaimIsFree(r, want);
    case ReleaseChild(_, _) =>
  }

  /** Steps that keep the record and the log, and start no release. */
  lemma FrameAccounted(s: State, t: State, c: nat, pc: Pc, p: Block)
    requires Accounted(s, p) && p in t.store && t.store[p] == s.store[p] && t.log == s.log
    requires t.clients == s.clients[c := pc]
    requires forall a: nat | Releasing(pc, p, a) ::
               a in Held(s.log, p) && ((c in s.clients && Releasing(s.clients[c], p, a)) || NobodyReleases(s, p, a))
    ensures Accounted(t, p)
  {
  }

  /** A commit on `p` by client `c`, which then stops releasing. */
  lemma CommitKeepsReleases(s: State, t: State, c: nat, pc: Pc, op: Op, outcome: Outcome, p: Block)
    requires ReleasesHeld(s, p) && c in s.clients
    requires t.clients == s.clients[c := pc] && t.log == s.log + [Entry(op, outcome)]
    requires forall a: nat :: !Releasing(pc, p, a)
    requires op.ReleaseIp? && Target(op) == p && !outcome.Ip? ==> Releasing(s.clients[c], p, op.addr.value)
    ensures ReleasesHeld(t, p)
  {
    HeldAppend(s.log, Entry(op, outcome), p);
  }

  /** A passing write on `p`. */
  lemma OwnCommitKeepsAccounted(s: State, t: State, c: nat, pc: Pc, p: Block)
    requires Accounted(s, p) && c in s.clients && s.clients[c] == pc && pc.Write? && ValidPc(pc)
    requires pc.snap == s.store[p]
    requires var (next, outcome) := Compute(pc.op, pc.snap).value;
             && t.store == s.store[p := Commit(next)] && t.log == s.log + [Entry(pc.op, outcome)]
             && c in t.clients && t.clients == s.clients[c := t.clients[c]]
             && (t.clients[c].Idle? || t.clients[c].Create?)
    ensures Accounted(t, p)
  {
    var outcome := Compute(pc.op, pc.snap).value.1;
    ComputeKeepsSound(pc.op, pc.snap);
    if pc.op.ReleaseIp? {
      assert Releasing(pc, p, pc.op.addr.value);
    }
    CommitAccounts(pc.op, pc.snap, s.log);
    CommitKeepsReleases(s, t, c, t.clients[c], pc.op, outcome, p);
  }

  lemma OtherEntryAccounts(r: Prefix, log: seq<Entry>, e: Entry)
    requires EntriesAccounted(r, log) && Target(e.op) != r.cidr
    ensures EntriesAccounted(r, log + [e])
  {
    HeldAppend(log, e, r.cidr);
  }

  /** A passing write on another record. */
  lemma OtherCommitKeepsAccounted(s: State, t: State, c: nat, op: Op, outcome: Outcome, rec: Prefix, p: Block)
    requires Accounted(s, p) && c in s.clients && Target(op) != p
    requires t.store == s.store[Target(op) := rec] && t.log == s.log + [Entry(op, outcome)]
    requires c in t.clients && t.clients == s.clients[c := t.clients[c]] && (t.clients[c].Idle? || t.clients[c].Create?)
    ensures Accounted(t, p)
  {
    OtherEntryAccounts(s.store[p], s.log, Entry(op, outcome));
    CommitKeepsReleases(s, t, c, t.clients[c], op, outcome, p);
  }

  lemma SwapKeepsAccounted(s: State, c: nat, pc: Pc, p: Block)
    requires Accounted(s, p) && c in s.clients && s.clients[c] == pc
    requires pc.Write? && ValidPc(pc) && (pc.snap.cidr == p ==> Current(pc.snap, s.store[p]))
    ensures Accounted(Swapped(s, c, pc), p)
  {
    var t, key := Swapped(s, c, pc), pc.snap.cidr;
    if key in s.store && s.store[key].version == pc.snap.version {
      var (next, outcome) := Compute(pc.op, pc.snap).value;
      if key == p {
        OwnCommitKeepsAccounted(s, t, c, pc, p);
      } else {
        OtherCommitKeepsAccounted(s, t, c, pc.op, outcome, Commit(next), p);
      }
    } else {
      FrameAccounted(s, t, c, t.clients[c], p);
    }
  }

  lemma StepKeepsAccounted(s: State, e: Event, p: Block)
    requires Valid(s) && ValidEvent(e) && Accounted(s, p) && SnapshotsCurrent(s, p)
    requires ByHolder(s, e, p) && p in Do(s, e).store
    ensures Accounted(Do(s, e), p)
  {
    var t, c := Do(s, e), e.client;
    if t == s {
    } else if e.Step? && s.clients[c].Write? {
      assert ValidPc(s.clients[c]) && Snap(s.clients[c]) == Some(s.clients[c].snap);
      SwapKeepsAccounted(s, c, s.clients[c], p);
    } else {
      FrameAccounted(s, t, c, t.clients[c], p);
    }
  }

  lemma {:induction false} AccountedThroughout(s: State, es: seq<Event>, p: Block, parent: Option<Block>)
    requires Quiet(s) && ValidEvents(es) && Undeleted(s, es, p) && Disciplined(s, es, p)
    requires p in s.store && s.store[p] == Fresh(p, parent)
    ensures Accounted(Exec(s, es), p)
  {
    if es != [] {
      var n := |es| - 1;
      AccountedThroughout(s, es[..n], p, parent);
      SerialThroughout(s, es[..n], p);
      StepKeepsAccounted(Exec(s, es[..n]), es[n], p);
    }
  }

  /**
   From a fresh prefix on, in any run that does not delete it: outstanding addresses are
   pairwise different, lie in the prefix, and none of them is a reserved one.
   */
  lemma OutstandingAddressesAreUnique(s: State, es: seq<Event>, p: Block, parent: Option<Block>, a: nat)
    requires Quiet(s) && ValidEvents(es) && Undeleted(s, es, p) && Disciplined(s, es, p)
    requires p in s.store && s.store[p] == Fresh(p, parent)
    ensures var held := Held(Exec(s, es).log, p);
            && held[a] <= 1
            && (a in held ==> HasAddr(p, a) && a != p.First() && (p.family.V4? ==> a != p.Last()))
            && (a in Exec(s, es).store[p].ips <==> a in held || a in Reserved(p))
  {
    AccountedThroughout(s, es, p, parent);
    var t := Exec(s, es);
    var entries, reserved: multiset<nat> := multiset(t.store[p].ips), multiset(Reserved(p));
    assert entries[a] == reserved[a] + Held(t.log, p)[a];
  }
}
