/**
 What a full update guarantees: safety whatever calls fail, what success means, convergence
 when all calls succeed, and that a converged server is left alone.
 */
module WeaveGuarantees {
  import opened Wrappers
  import opened WeaveModel
  import opened WeaveServer
  import opened WeaveSync
  import opened WeaveNetworks
  import opened WeaveAttachments
  import opened WeaveUpdate
  import opened WeaveReconcile

  lemma TailIsSafe(healthy: bool, drops: bool, b: View, c: View, d: View, entries: seq<Status>,
                   r: Result<seq<Status>, string>, before: seq<Call>)
    requires TailRun(healthy, drops, b, c, d, entries, r) && OnlyAddsNetworks(before, b.log)
    ensures AttachesOnlyReady(before, d.log)
    ensures OnePerVni(b.networks) ==> OnePerVni(d.networks)
    ensures WellFormed(b.networks, b.attachments) ==> WellFormed(d.networks, d.attachments)
    ensures WellFormed(b.networks, b.attachments) && DistinctMacs(entries) ==> SafeSince(before, d.log, entries)
  {
    var two, three :| TailSteps(healthy, drops, b, c, d, entries, two, three, r);
    PhasesAreSafe(before, b.log, c.log, d.log, entries);
    if two.Ok? {
      SameEntriesAgree(entries, two.value, c.attachments);
    }
  }

  /**
   Whatever calls fail: attachments are created only on networks that are there and reported
   Ready, there are never two networks for a VNI if there were none before, and on a
   well-formed server no network is deleted while an attachment is on it.
   */
  lemma UpdateIsSafe(healthy: bool, drops: bool, a: View, b: View, c: View, d: View, entries: seq<Status>,
                     r: Result<seq<Status>, string>)
    requires FullRun(healthy, drops, a, b, c, d, entries, r)
    ensures AttachesOnlyReady(a.log, d.log)
    ensures OnePerVni(a.networks) ==> OnePerVni(d.networks)
    ensures WellFormed(a.networks, a.attachments) ==> WellFormed(d.networks, d.attachments)
    ensures WellFormed(a.networks, a.attachments) && DistinctMacs(entries) ==> SafeSince(a.log, d.log, entries)
  {
    var one :| FullSteps(healthy, drops, a, b, c, d, entries, one, r);
    if one.Ok? {
      TailIsSafe(healthy, drops, b, c, d, one.value, r, a.log);
      SameEntriesAgree(entries, one.value, a.attachments);
      SameEntriesSafe(one.value, entries, a.log, d.log);
    }
  }

  lemma SameEntriesSafe(a: seq<Status>, b: seq<Status>, before: seq<Call>, log: seq<Call>)
    requires SameEntries(b, a)
    ensures SafeSince(before, log, a) ==> SafeSince(before, log, b)
  {
    forall x: Attachment
      ensures Wanted(x, a) <==> Wanted(x, b)
    {
      SameEntriesWant(b, a, x);
    }
  }

  /** Success means that the statuses are the config's and that every Ready one is attached. */
  lemma OkMeansAttached(healthy: bool, drops: bool, a: View, b: View, c: View, d: View, entries: seq<Status>,
                        r: Result<seq<Status>, string>)
    requires FullRun(healthy, drops, a, b, c, d, entries, r) && r.Ok?
    ensures SameEntries(entries, r.value)
    ensures WellFormed(a.networks, a.attachments) && DistinctMacs(entries) ==>
              AllWanted(d.attachments, entries) && ReadyMeansHeld(r.value, d.attachments)
  {
    var one :| FullSteps(healthy, drops, a, b, c, d, entries, one, r);
    var two, three :| TailSteps(healthy, drops, b, c, d, one.value, two, three, r);
    SameEntriesTransitive(entries, one.value, two.value);
    SameEntriesAgree(entries, one.value, d.attachments);
  }

  lemma TailConverges(drops: bool, b: View, c: View, d: View, entries: seq<Status>, r: Result<seq<Status>, string>)
    requires TailRun(true, drops, b, c, d, entries, r)
    requires WellFormed(b.networks, b.attachments) && AllReady(b.networks) && VnisPresent(entries, b.networks)
    requires DistinctMacs(entries) && CanAttachAll(entries)
    ensures AllWanted(d.attachments, entries) && AllHeld(entries, d.attachments)
    ensures Renewed(entries, b.attachments, d.attachments) && WantedKept(entries, b.attachments, d.attachments)
    ensures r.Ok? ==> SameEntries(entries, r.value) && Converged(entries, d)
    ensures r.Ok? <==> drops || AllInConfig(b.networks, entries)
    ensures !drops ==> d.networks == b.networks && (r.Err? ==> |d.log| == |c.log| + 1)
    ensures NoneOn(b.attachments, VnetName(0)) ==> NoneOn(d.attachments, VnetName(0))
    ensures r.Ok? && AttachmentsReady(b.attachments) ==> AllEntriesReady(r.value)
  {
    var two, three :| TailSteps(true, drops, b, c, d, entries, two, three, r);
    var done := two.value;
    SameEntriesMatch(done, entries, d.networks, d.attachments);
    SameEntriesVnis(entries, done, c.networks);
    SameEntriesCurrent(entries, done, c.networks);
    if r.Ok? {
      SiftedMatches(done, c.networks, d.networks);
    }
  }

  lemma SameEntriesCurrent(a: seq<Status>, b: seq<Status>, networks: seq<Network>)
    requires SameEntries(a, b)
    ensures AllInConfig(networks, a) <==> AllInConfig(networks, b)
  {
    forall n | n in networks
      ensures InConfig(n, a) <==> InConfig(n, b)
    {
      SameEntriesInConfig(a, b, n);
    }
  }

  lemma SameEntriesVnis(a: seq<Status>, b: seq<Status>, networks: seq<Network>)
    requires SameEntries(a, b)
    ensures VnisPresent(a, networks) ==> VnisPresent(b, networks)
  {
    forall s | s in b
      ensures exists t | t in a :: t.vni == s.vni
    {
      var i :| 0 <= i < |b| && b[i] == s;
      assert a[i] in a;
    }
  }

  /**
   From any well-formed server with Ready networks that answers. The attachments always end up
   those of the entries. If networks can be deleted the update succeeds, and whenever it
   succeeds the networks are those of the entries too; else one failed delete leaves them all.
   */
  lemma UpdateConverges(drops: bool, a: View, b: View, c: View, d: View, entries: seq<Status>,
                        r: Result<seq<Status>, string>)
    requires FullRun(true, drops, a, b, c, d, entries, r)
    requires WellFormed(a.networks, a.attachments) && AllReady(a.networks)
    requires DistinctMacs(entries) && CanAttachAll(entries)
    ensures AllWanted(d.attachments, entries) && AllHeld(entries, d.attachments)
    ensures Renewed(entries, a.attachments, d.attachments) && WantedKept(entries, a.attachments, d.attachments)
    ensures r.Ok? ==> SameEntries(entries, r.value) && Converged(entries, d)
    ensures drops ==> r.Ok?
    ensures !drops && r.Ok? ==> AllInConfig(a.networks, entries)
    ensures !drops ==> a.networks <= d.networks && AllReady(d.networks) && (r.Err? ==> |d.log| == |c.log| + 1)
    ensures NoneOn(a.attachments, VnetName(0)) ==> NoneOn(d.attachments, VnetName(0))
    ensures r.Ok? && AttachmentsReady(a.attachments) ==> AllEntriesReady(r.value)
  {
    var one :| FullSteps(true, drops, a, b, c, d, entries, one, r);
    TailConverges(drops, b, c, d, entries, r);
  }

  /** Every attachment of an attached entry is to the entry's own function. */
  ghost predicate AllCarry(entries: seq<Status>, attachments: seq<Attachment>) {
    forall s, x | s in entries && s.vni != 0 && x in attachments && HasKey(x, s.entry.mac, VnetName(s.vni)) ::
      Carries(x.spec.value, s.entry)
  }

  lemma NewOnesCarry(entries: seq<Status>, before: seq<Attachment>, s: Status, x: Attachment)
    requires DistinctMacs(entries) && s in entries && HasKey(x, s.entry.mac, VnetName(s.vni))
    requires MadeForOne(true, entries, before, x)
    ensures Carries(x.spec.value, s.entry)
  {
    var t :| t in entries && MadeFor(true, t, x) && !Held(t, before);
    SameMacSameEntry(entries, s, t);
  }

  /**
   New attachments are to their entries' functions, but an attachment that is there already is
   kept for its NIC and network alone. So functions are right afterwards exactly if they were.
   */
  lemma FunctionsRightIff(entries: seq<Status>, before: seq<Attachment>, after: seq<Attachment>)
    requires DistinctMacs(entries) && Renewed(entries, before, after) && WantedKept(entries, before, after)
    ensures AllCarry(entries, after) <==> AllCarry(entries, before)
  {
    forall s, x | s in entries && s.vni != 0 && HasKey(x, s.entry.mac, VnetName(s.vni))
      ensures x in before ==> x in after
      ensures x in after && x !in before ==> Carries(x.spec.value, s.entry)
    {
      assert Wanted(x, entries);
      if x in after && x !in before {
        NewOnesCarry(entries, before, s, x);
      }
    }
  }

  /** Attachments that are Ready stay Ready, and so are the new ones. */
  lemma UpdateKeepsReady(drops: bool, a: View, b: View, c: View, d: View, entries: seq<Status>,
                         r: Result<seq<Status>, string>)
    requires FullRun(true, drops, a, b, c, d, entries, r) && AttachmentsReady(a.attachments)
    ensures AttachmentsReady(d.attachments)
  {
    var one :| FullSteps(true, drops, a, b, c, d, entries, one, r);
    if one.Ok? {
      var two, three :| TailSteps(true, drops, b, c, d, one.value, two, three, r);
    }
  }

  /** What the server holds apart from the last report of Ready networks. */
  predicate SameServer(a: View, b: View) {
    b.networks == a.networks && b.attachments == a.attachments && b.log == a.log
  }

  lemma CopiedIsReady(entries: seq<Status>, done: seq<Status>, attachments: seq<Attachment>)
    requires AllCopied(entries, done, attachments) && |done| == |entries|
    requires AllEntriesReady(entries) && AttachmentsReady(attachments)
    ensures AllEntriesReady(done)
  {
    forall s | s in done
      ensures IsReady(s)
    {
      var i :| 0 <= i < |done| && done[i] == s;
      assert entries[i] in entries && Copied(entries[i], done[i], attachments);
    }
  }

  lemma SettledPhaseTwo(b: View, c: View, entries: seq<Status>, two: Result<seq<Status>, string>)
    requires PhaseTwo(true, b, c, entries, two) && IsSettled(entries, b.attachments)
    ensures SameServer(b, c) && two.Ok? && SameEntries(entries, two.value)
    ensures AllCopied(entries, two.value, b.attachments)
  {
  }

  lemma MatchedPhaseThree(drops: bool, c: View, d: View, entries: seq<Status>, done: seq<Status>,
                          three: Result<(), string>)
    requires PhaseThree(true, drops, c, d, done, three) && SameEntries(entries, done)
    requires NetworksMatch(entries, c.networks)
    ensures SameServer(c, d) && three.Ok?
  {
    SameEntriesMatch(entries, done, c.networks, c.attachments);
  }

  lemma TailLeavesConverged(drops: bool, b: View, c: View, d: View, entries: seq<Status>,
                            r: Result<seq<Status>, string>)
    requires TailRun(true, drops, b, c, d, entries, r)
    requires IsSettled(entries, b.attachments) && NetworksMatch(entries, b.networks)
    ensures SameServer(b, d) && r.Ok? && |r.value| == |entries| && AllCopied(entries, r.value, b.attachments)
  {
    var two, three :| TailSteps(true, drops, b, c, d, entries, two, three, r);
    SettledPhaseTwo(b, c, entries, two);
    MatchedPhaseThree(drops, c, d, entries, two.value, three);
  }

  /** A healthy, converged server with Ready attachments is not called, and every entry is Ready. */
  lemma UpdateLeavesConverged(drops: bool, a: View, b: View, c: View, d: View, entries: seq<Status>,
                              r: Result<seq<Status>, string>)
    requires FullRun(true, drops, a, b, c, d, entries, r)
    requires Converged(entries, a) && DistinctMacs(entries) && AllEntriesReady(entries)
    requires AttachmentsReady(a.attachments)
    ensures SameServer(a, d) && r.Ok? && AllEntriesReady(r.value)
  {
    var one :| FullSteps(true, drops, a, b, c, d, entries, one, r);
    WantedAndHeldIsSettled(entries, a.attachments);
    TailLeavesConverged(drops, b, c, d, entries, r);
    CopiedIsReady(entries, r.value, a.attachments);
  }

  lemma WantedHasEntry(config: Config, x: Attachment)
    requires Wanted(x, Initial(config)) && !HasVnet(x, VnetName(0)) && EntriesUsable(config)
    ensures exists e | e in config && e.vni != 0 :: KeyOf(x) == EntryKey(e)
  {
    var i :| 0 <= i < |config| && HasKey(x, config[i].mac, VnetName(config[i].vni));
    assert config[i] in config && EntryUsable(config[i]);
  }

  lemma EntryHasAttachment(config: Config, e: Entry, attachments: seq<Attachment>)
    requires AllHeld(Initial(config), attachments) && e in config && e.vni != 0 && EntryUsable(e)
    ensures exists x | x in attachments :: KeyOf(x) == EntryKey(e)
  {
    var i :| 0 <= i < |config| && config[i] == e;
    assert Initial(config)[i] in Initial(config);
    var x :| x in attachments && HasKey(x, e.mac, VnetName(e.vni));
    assert KeyOf(x) == EntryKey(e);
  }

  lemma NetworkHasEntry(config: Config, n: Network)
    requires InConfig(n, Initial(config))
    ensures exists e | e in config && e.vni != 0 :: n.vni == Some(e.vni)
  {
    var i :| 0 <= i < |config| && config[i].vni == n.vni.value;
    assert config[i] in config;
  }

  lemma EntryHasNetwork(config: Config, e: Entry, networks: seq<Network>)
    requires VnisPresent(Initial(config), networks) && e in config && e.vni != 0
    ensures exists n | n in networks :: n.vni == Some(e.vni)
  {
    var i :| 0 <= i < |config| && config[i] == e;
    assert Initial(config)[i] in Initial(config);
    var n :| n in networks && n.vni.Some? && n.vni.value == e.vni;
  }

  /** Spelled out: the (NIC, network) pairs on a converged server are those of the attached entries, */
  lemma ConvergedAttachments(config: Config, v: View)
    requires Converged(Initial(config), v) && NoneOn(v.attachments, VnetName(0)) && EntriesUsable(config)
    ensures (set x | x in v.attachments :: KeyOf(x)) == (set e | e in config && e.vni != 0 :: EntryKey(e))
  {
    forall x | x in v.attachments
      ensures exists e | e in config && e.vni != 0 :: KeyOf(x) == EntryKey(e)
    {
      WantedHasEntry(config, x);
    }
    forall e | e in config && e.vni != 0
      ensures exists x | x in v.attachments :: KeyOf(x) == EntryKey(e)
    {
      EntryHasAttachment(config, e, v.attachments);
    }
  }

  /** and so are its VNIs. */
  lemma ConvergedNetworks(config: Config, v: View)
    requires Converged(Initial(config), v)
    ensures (set n | n in v.networks :: n.vni) == (set e | e in config && e.vni != 0 :: Some(e.vni))
  {
    forall n | n in v.networks
      ensures exists e | e in config && e.vni != 0 :: n.vni == Some(e.vni)
    {
      NetworkHasEntry(config, n);
    }
    forall e | e in config && e.vni != 0
      ensures exists n | n in v.networks :: n.vni == Some(e.vni)
    {
      EntryHasNetwork(config, e, v.networks);
    }
  }
}
