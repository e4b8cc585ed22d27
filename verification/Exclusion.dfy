/**
 Addresses and children of one prefix. A parent is refused further addresses and a prefix
 with addresses is refused children, but the test behind it counts entries: it is exact only
 as long as the reserved entries are still there, and releasing one is not refused.
 */
module Exclusion {
  import opened Wrappers
  import opened Cidr
  import opened FreeSet
  import opened Prefixes
  import opened Clients
  import opened Atomicity
  import opened Addresses

  /** The reserved entries that no commit has released. */
  function Unreleased(entries: seq<Entry>, b: Block): set<nat> {
    if entries == [] then Reserved(b)
    else
      var e, before := entries[|entries| - 1], Unreleased(entries[..|entries| - 1], b);
      if e.op.ReleaseIp? then before - {e.op.addr.value} else before
  }

  /** The entries of a record are its unreleased reserved ones and the outstanding addresses. */
  ghost predicate Tallied(r: Prefix, entries: seq<Entry>) {
    && multiset(r.ips) == multiset(Unreleased(entries, r.cidr)) + Held(entries, r.cidr)
    && forall a | a in r.ips :: HasAddr(r.cidr, a)
  }

  lemma UnreleasedMore(entries: seq<Entry>, e: Entry, b: Block)
    ensures Unreleased(entries + [e], b) == if e.op.ReleaseIp? then Unreleased(entries, b) - {e.op.addr.value}
            else Unreleased(entries, b)
  {
    assert (entries + [e])[..|entries|] == entries;
  }

  /** Releasing takes the address from where it is. */
  lemma TakenAway(ips: set<nat>, unreleased: set<nat>, held: multiset<nat>, a: nat)
    requires multiset(ips) == multiset(unreleased) + held && a in ips
    ensures multiset(ips - {a}) == multiset(unreleased - {a}) + (held - multiset{a})
  {
    var all: multiset<nat>, kept: multiset<nat> := multiset(ips), multiset(unreleased);
    assert all[a] == kept[a] + held[a];
    forall x: nat
      ensures multiset(ips - {a})[x] == (multiset(unreleased - {a}) + (held - multiset{a}))[x]
    {
      assert all[x] == kept[x] + held[x];
    }
  }

  lemma TakeTallies(r: Prefix, entries: seq<Entry>, e: Entry)
    requires Tallied(r, entries) && e.op.AcquireIp? && Target(e.op) == r.cidr
    requires Compute(e.op, r).Ok? && Compute(e.op, r).value.1 == e.outcome
    ensures Tallied(Commit(Compute(e.op, r).value.0), entries + [e])
  {
    UnreleasedMore(entries, e, r.cidr);
    HeldAppend(entries, e, r.cidr);
    TakenIpWasFree(r, e.op.ip);
    assert multiset(Compute(e.op, r).value.0.ips) == multiset(r.ips) + multiset{e.outcome.ip};
  }

  lemma DropTallies(r: Prefix, entries: seq<Entry>, e: Entry)
    requires Tallied(r, entries) && e.op.ReleaseIp? && Target(e.op) == r.cidr
    requires Compute(e.op, r).Ok? && Compute(e.op, r).value.1 == e.outcome
    ensures Tallied(Commit(Compute(e.op, r).value.0), entries + [e])
  {
    UnreleasedMore(entries, e, r.cidr);
    HeldAppend(entries, e, r.cidr);
    TakenAway(r.ips, Unreleased(entries, r.cidr), Held(entries, r.cidr), e.op.addr.value);
  }

  lemma ChildTallies(r: Prefix, entries: seq<Entry>, e: Entry)
    requires Tallied(r, entries) && (e.op.AcquireChild? || e.op.ReleaseChild?) && WellFormed(e.op)
             && Target(e.op) == r.cidr
    requires Compute(e.op, r).Ok? && Compute(e.op, r).value.1 == e.outcome
    ensures Tallied(Commit(Compute(e.op, r).value.0), entries + [e])
  {
    UnreleasedMore(entries, e, r.cidr);
    HeldAppend(entries, e, r.cidr);
    if e.op.AcquireChild? {
      ClaimIsFree(r, e.op.want);
    }
  }

  lemma CommitTallies(r: Prefix, entries: seq<Entry>, e: Entry)
    requires Tallied(r, entries) && WellFormed(e.op) && Target(e.op) == r.cidr
    requires Compute(e.op, r).Ok? && Compute(e.op, r).value.1 == e.outcome
    ensures Tallied(Commit(Compute(e.op, r).value.0), entries + [e])
  {
    match e.op
    case AcquireIp(_, _) => TakeTallies(r, entries, e);
    case ReleaseIp(_, _) => DropTallies(r, entries, e);
    case AcquireChild(_, _) => ChildTallies(r, entries, e);
    case ReleaseChild(_, _) => ChildTallies(r, entries, e);
  }

  lemma {:induction false} ReplayTallies(b: Block, parent: Option<Block>, entries: seq<Entry>)
    requires Replay(Fresh(b, parent), entries).Some?
    ensures var r := Replay(Fresh(b, parent), entries).value;
            r.cidr == b && Sound(r) && Tallied(r, entries)
  {
    FreshIsSound(b, parent);
    ReplayCountsVersions(Fresh(b, parent), entries);
    if entries != [] {
      var n := |entries| - 1;
      ReplayTallies(b, parent, entries[..n]);
      CommitTallies(Replay(Fresh(b, parent), entries[..n]).value, entries[..n], entries[n]);
      assert entries == entries[..n] + [entries[n]];
    }
  }

  lemma {:induction false} HeldOfCommits(log: seq<Entry>, p: Block)
    ensures Held(CommitsOn(log, p), p) == Held(log, p)
  {
    if log != [] {
      var n := |log| - 1;
      HeldOfCommits(log[..n], p);
      CommitsOnAppend(log[..n], log[n], p);
      HeldAppend(log[..n], log[n], p);
      HeldAppend(CommitsOn(log[..n], p), log[n], p);
      assert log == log[..n] + [log[n]];
    }
  }

  lemma EntriesCounted(r: Prefix, entries: seq<Entry>)
    requires Tallied(r, entries)
    ensures |r.ips| == |Unreleased(entries, r.cidr)| + |Held(entries, r.cidr)|
  {
    assert |multiset(r.ips)| == |multiset(Unreleased(entries, r.cidr)) + Held(entries, r.cidr)|;
  }

  /** The test on the number of entries, in terms of what has happened. */
  lemma HasIpsIff(b: Block, parent: Option<Block>, entries: seq<Entry>)
    requires Replay(Fresh(b, parent), entries).Some?
    ensures HasIps(Replay(Fresh(b, parent), entries).value)
       <==> |Held(entries, b)| + |Unreleased(entries, b)| > ReservedCount(b.family)
  {
    ReplayTallies(b, parent, entries);
    EntriesCounted(Replay(Fresh(b, parent), entries).value, entries);
  }

  predicate NoneReleased(entries: seq<Entry>, b: Block) {
    forall e | e in entries && e.op.ReleaseIp? :: e.op.addr.value !in Reserved(b)
  }

  lemma {:induction false} NoneReleasedKeepsAll(entries: seq<Entry>, b: Block)
    requires NoneReleased(entries, b)
    ensures Unreleased(entries, b) == Reserved(b)
  {
    if entries != [] {
      var n := |entries| - 1;
      assert entries[n] in entries;
      NoneReleasedKeepsAll(entries[..n], b);
    }
  }

  /** A block with an address besides its reserved ones has as many of these as are counted. */
  lemma ReservedAreCounted(b: Block, a: nat)
    requires HasAddr(b, a) && a !in Reserved(b)
    ensures |Reserved(b)| == ReservedCount(b.family)
  {
  }

  /** While no reserved entry has been released, a record with outstanding addresses has no children. */
  lemma ReplayExcludes(b: Block, parent: Option<Block>, entries: seq<Entry>)
    requires Replay(Fresh(b, parent), entries).Some? && NoneReleased(entries, b)
    ensures Held(entries, b) != multiset{} ==> Claims(Replay(Fresh(b, parent), entries).value) == {}
  {
    var r := Replay(Fresh(b, parent), entries).value;
    ReplayTallies(b, parent, entries);
    NoneReleasedKeepsAll(entries, b);
    HasIpsIff(b, parent, entries);
    if Held(entries, b) != multiset{} {
      var a :| a in Held(entries, b);
      HeldIsOther(r, entries, a);
      ReservedAreCounted(b, a);
      assert |Held(entries, b)| >= 1;
    }
  }

  /** An outstanding address is in the block, and not an unreleased reserved one. */
  lemma HeldIsOther(r: Prefix, entries: seq<Entry>, a: nat)
    requires Tallied(r, entries) && a in Held(entries, r.cidr)
    ensures HasAddr(r.cidr, a) && a !in Unreleased(entries, r.cidr)
  {
    var all: multiset<nat>, kept: multiset<nat> := multiset(r.ips), multiset(Unreleased(entries, r.cidr));
    assert all[a] == kept[a] + Held(entries, r.cidr)[a];
  }

  /**
   In every interleaving on an undeleted prefix: while no reserved entry has been released,
   outstanding addresses and claimed children exclude each other.
   */
  lemma AddressesExcludeChildren(s: State, es: seq<Event>, p: Block, parent: Option<Block>)
    requires Quiet(s) && ValidEvents(es) && Undeleted(s, es, p) && p in s.store && s.store[p] == Fresh(p, parent)
    requires NoneReleased(CommitsOn(Exec(s, es).log, p), p)
    ensures Held(Exec(s, es).log, p) == multiset{} || Claims(Exec(s, es).store[p]) == {}
  {
    var t := Exec(s, es);
    RunIsSerial(s, es, p);
    ReplayExcludes(p, parent, CommitsOn(t.log, p));
    HeldOfCommits(t.log, p);
  }

  /**
   In general a prefix with claimed children has at most as many outstanding addresses as
   reserved entries are missing from the number that is counted for them.
   */
  lemma OutstandingBesideChildren(s: State, es: seq<Event>, p: Block, parent: Option<Block>)
    requires Quiet(s) && ValidEvents(es) && Undeleted(s, es, p) && p in s.store && s.store[p] == Fresh(p, parent)
    requires Claims(Exec(s, es).store[p]) != {}
    ensures |Held(Exec(s, es).log, p)| + |Unreleased(CommitsOn(Exec(s, es).log, p), p)| <= ReservedCount(p.family)
  {
    var t := Exec(s, es);
    RunIsSerial(s, es, p);
    ReplayTallies(p, parent, CommitsOn(t.log, p));
    HasIpsIff(p, parent, CommitsOn(t.log, p));
    HeldOfCommits(t.log, p);
  }

  /** A child is granted beside outstanding addresses exactly when that many entries are missing and a block is free. */
  lemma GrantedBesideAddressesIff(b: Block, parent: Option<Block>, entries: seq<Entry>, r: Prefix, want: Want)
    requires Replay(Fresh(b, parent), entries) == Some(r) && r.cidr == b
    requires want.OfLength? ==> want.length <= Width(b.family)
    ensures ClaimChild(r, want).Ok?
       <==> && |Held(entries, b)| + |Unreleased(entries, b)| <= ReservedCount(b.family)
            && exists x: Block :: && (if want.OfLength? then x.Len() == want.length else x == want.cidr)
                                  && StrictlyWithin(x, b) && Untouched(x, Claims(r))
  {
    HasIpsIff(b, parent, entries);
    ClaimGrantedIff(r, want);
  }

  // ---- Once a parent, always a parent

  predicate SomeChild(entries: seq<Entry>) {
    exists e | e in entries :: e.op.AcquireChild?
  }

  lemma {:induction false} ReplayTellsParents(r: Prefix, entries: seq<Entry>)
    requires Replay(r, entries).Some?
    ensures Replay(r, entries).value.isParent <==> r.isParent || SomeChild(entries)
  {
    if entries != [] {
      var n := |entries| - 1;
      ReplayTellsParents(r, entries[..n]);
      assert entries == entries[..n] + [entries[n]];
      if SomeChild(entries[..n]) {
        var e :| e in entries[..n] && e.op.AcquireChild?;
        assert e in entries;
      }
      assert entries[n] in entries;
    }
  }

  /**
   In every interleaving, an undeleted prefix is a parent exactly if it was one or has granted a
   child since, even if all its children have been released; and then it grants no address.
   */
  lemma ParentIffChildGranted(s: State, es: seq<Event>, p: Block, ip: Option<Addr>)
    requires Quiet(s) && ValidEvents(es) && Undeleted(s, es, p)
    ensures p in s.store && p in Exec(s, es).store
    ensures var r := Exec(s, es).store[p];
            && (r.isParent <==> s.store[p].isParent || SomeChild(CommitsOn(Exec(s, es).log, p)))
            && (TakeIp(r, ip) == Err(HasChildren) <==> r.isParent)
  {
    RunIsSerial(s, es, p);
    ReplayTellsParents(s.store[p], CommitsOn(Exec(s, es).log, p));
  }

  // ---- A reserved entry can be released

  function ReleaseNetwork(b: Block): Entry {
    Entry(ReleaseIp(b, Addr(b.family, b.First())), Done)
  }

  function TakeAddress(b: Block, a: nat): Entry {
    Entry(AcquireIp(b, Some(Addr(b.family, a))), Ip(a))
  }

  function TakeChild(b: Block, x: Block): Entry {
    Entry(AcquireChild(b, Exactly(x)), Child(x))
  }

  /** Releasing the network address of a new prefix and taking another one leaves no more entries than before. */
  lemma EntrySwapped(b: Block, parent: Option<Block>, a: nat) returns (r: Prefix)
    requires HasAddr(b, a) && a !in Reserved(b)
    ensures Replay(Fresh(b, parent), [ReleaseNetwork(b)] + [TakeAddress(b, a)]) == Some(r)
    ensures r.cidr == b && Sound(r) && !HasIps(r) && Claims(r) == {}
  {
    var r0 := Fresh(b, parent);
    FreshIsSound(b, parent);
    assert Replay(r0, []) == Some(r0);
    ReplayAppend(r0, [], ReleaseNetwork(b), r0);
    var r1 := Commit(r0.(ips := r0.ips - {b.First()}));
    assert [] + [ReleaseNetwork(b)] == [ReleaseNetwork(b)];
    ReplayAppend(r0, [ReleaseNetwork(b)], TakeAddress(b, a), r1);
    r := Commit(r1.(ips := r1.ips + {a}));
    ReservedAreCounted(b, a);
    assert |r0.ips - {b.First()}| == |r0.ips| - 1;
    assert Claims(r) == {};
  }

  /** Then a child is granted around the address, which is still outstanding. */
  lemma ReservedReleaseBreaksExclusion(b: Block, parent: Option<Block>, a: nat, x: Block)
    returns (entries: seq<Entry>, r: Prefix)
    requires StrictlyWithin(x, b) && HasAddr(x, a) && a !in Reserved(b)
    ensures Replay(Fresh(b, parent), entries) == Some(r) && |entries| == 3
    ensures x in Claims(r) && HasAddr(x, a) && a in Held(entries, b) && Sound(r)
  {
    WithinImpliesAddresses(x, b);
    SubBlockInOneHalf(x, b);
    var two := [ReleaseNetwork(b)] + [TakeAddress(b, a)];
    var before := EntrySwapped(b, parent, a);
    ClaimGrantedIff(before, Exactly(x));
    ClaimIsFree(before, Exactly(x));
    ReplayAppend(Fresh(b, parent), two, TakeChild(b, x), before);
    entries := two + [TakeChild(b, x)];
    r := Commit(ClaimChild(before, Exactly(x)).value.0);
    FreshIsSound(b, parent);
    ReplayCountsVersions(Fresh(b, parent), entries);
    HeldAppend(two, TakeChild(b, x), b);
    HeldAppend([ReleaseNetwork(b)], TakeAddress(b, a), b);
    assert Claims(r) == Claims(ClaimChild(before, Exactly(x)).value.0);
  }
}
