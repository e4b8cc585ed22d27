/**
 Where a reconcile does not converge. One failed delete of a stale network is enough: by then
 the attachments carry the config's revision, so that later reconciles of the same config take
 the fast path, which never looks at the networks.
 */
module WeaveStale {
  import opened Wrappers
  import opened WeaveModel
  import opened WeaveServer
  import opened WeaveSync
  import opened WeaveNetworks
  import opened WeaveAttachments
  import opened WeaveUpdate
  import opened WeaveReconcile
  import opened WeaveGuarantees
  import opened WeaveFastPath

  // ---- Keys that occur once

  predicate Once(keys: seq<Key>) {
    forall i, j | 0 <= i < j < |keys| :: keys[i] != keys[j]
  }

  lemma {:induction false} OnceCounts(keys: seq<Key>, k: Key)
    requires Once(keys)
    ensures multiset(keys)[k] == if k in keys then 1 else 0
  {
    if keys != [] {
      var n := |keys| - 1;
      OnceCounts(keys[..n], k);
      assert keys == keys[..n] + [keys[n]];
    }
  }

  lemma OnceAgree(a: seq<Key>, b: seq<Key>)
    requires Once(a) && Once(b) && forall k :: k in a <==> k in b
    ensures multiset(a) == multiset(b)
  {
    forall k: Key
      ensures multiset(a)[k] == multiset(b)[k]
    {
      OnceCounts(a, k);
      OnceCounts(b, k);
    }
  }

  predicate HasEntryKey(config: Config, k: Key) {
    exists e | e in config :: e.vni != 0 && EntryKey(e) == k
  }

  lemma HasEntryKeyStep(config: Config, e: Entry, k: Key)
    ensures HasEntryKey(config + [e], k) <==> HasEntryKey(config, k) || (e.vni != 0 && EntryKey(e) == k)
  {
    assert e in config + [e];
    if HasEntryKey(config, k) {
      var f :| f in config && f.vni != 0 && EntryKey(f) == k;
      assert f in config + [e];
    }
  }

  lemma {:induction false} ConfigKeysAre(config: Config, k: Key)
    ensures k in ConfigKeys(config) <==> HasEntryKey(config, k)
  {
    if config != [] {
      var n := |config| - 1;
      ConfigKeysAre(config[..n], k);
      HasEntryKeyStep(config[..n], config[n], k);
      assert config == config[..n] + [config[n]];
    }
  }

  lemma {:induction false} ConfigKeysOnce(config: Config)
    requires DistinctConfig(config)
    ensures Once(ConfigKeys(config))
  {
    if config != [] {
      var n := |config| - 1;
      ConfigKeysOnce(config[..n]);
      ConfigKeysAre(config[..n], EntryKey(config[n]));
    }
  }

  /** No two attachments that the config wants are on one NIC. */
  predicate NicsApart(config: Config, attachments: seq<Attachment>) {
    forall x, y | x in attachments && y in attachments && Wanted(x, Initial(config)) && Wanted(y, Initial(config)) ::
      x.spec.value.nicId == y.spec.value.nicId ==> x == y
  }

  lemma AttachmentKeysOnce(config: Config, attachments: seq<Attachment>)
    requires NicsApart(config, attachments) && UniqueIds(attachments) && AllWanted(attachments, Initial(config))
    ensures Once(Keys(attachments))
  {
    forall i, j | 0 <= i < j < |attachments|
      ensures KeyOf(attachments[i]) != KeyOf(attachments[j])
    {
      assert attachments[i] in attachments && attachments[j] in attachments && attachments[i] != attachments[j];
    }
  }

  lemma WantedKeys(config: Config, attachments: seq<Attachment>, k: Key)
    requires EntriesUsable(config) && NoneOn(attachments, VnetName(0)) && AllWanted(attachments, Initial(config))
    ensures k in Keys(attachments) ==> k in ConfigKeys(config)
  {
    if k in Keys(attachments) {
      var i :| 0 <= i < |attachments| && KeyOf(attachments[i]) == k;
      assert attachments[i] in attachments;
      WantedHasEntry(config, attachments[i]);
      ConfigKeysAre(config, k);
    }
  }

  lemma HeldKeys(config: Config, attachments: seq<Attachment>, k: Key)
    requires EntriesUsable(config) && AllHeld(Initial(config), attachments)
    ensures k in ConfigKeys(config) ==> k in Keys(attachments)
  {
    ConfigKeysAre(config, k);
    if k in ConfigKeys(config) {
      var e :| e in config && e.vni != 0 && EntryKey(e) == k;
      EntryHasAttachment(config, e, attachments);
      var i :| 0 <= i < |attachments| && KeyOf(attachments[i]) == k;
      assert Keys(attachments)[i] == k;
    }
  }

  /** Attachments of the entries and no others, one on each NIC, pair off with the config. */
  lemma AttachedIsInSync(config: Config, attachments: seq<Attachment>)
    requires DistinctConfig(config) && EntriesUsable(config) && UniqueIds(attachments)
    requires NoneOn(attachments, VnetName(0))
    requires AllWanted(attachments, Initial(config)) && AllHeld(Initial(config), attachments)
    requires NicsApart(config, attachments)
    requires forall x | x in attachments :: x.state.Some?
    ensures InSync(config, attachments)
  {
    AttachmentKeysOnce(config, attachments);
    ConfigKeysOnce(config);
    forall k: Key
      ensures k in Keys(attachments) <==> k in ConfigKeys(config)
    {
      WantedKeys(config, attachments, k);
      HeldKeys(config, attachments, k);
    }
    OnceAgree(Keys(attachments), ConfigKeys(config));
  }

  // ---- One failed delete

  predicate OneRevision(config: Config, revision: string) {
    config != [] && forall e | e in config :: e.revision == revision
  }

  /** What is wanted already has the config's revision and a state, and is alone on its NIC. */
  predicate Reusable(config: Config, revision: string, attachments: seq<Attachment>) {
    && (forall x | x in attachments && Wanted(x, Initial(config)) :: x.revision == Some(revision) && x.state.Some?)
    && NicsApart(config, attachments)
    && NoneOn(attachments, VnetName(0))
  }

  lemma MadeCarries(config: Config, revision: string, before: seq<Attachment>, x: Attachment)
    requires OneRevision(config, revision) && MadeForOne(true, Initial(config), before, x)
    ensures x.revision == Some(revision) && x.state.Some?
    ensures forall y | y in before && DistinctConfig(config) && Wanted(y, Initial(config)) ::
              y.spec.value.nicId != x.spec.value.nicId
  {
    var entries := Initial(config);
    var s :| s in entries && MadeFor(true, s, x) && !Held(s, before);
    var i :| 0 <= i < |entries| && entries[i] == s;
    assert config[i] in config;
    forall y | y in before && DistinctConfig(config) && Wanted(y, entries)
      ensures y.spec.value.nicId != x.spec.value.nicId
    {
      var t :| t in entries && HasKey(y, t.entry.mac, VnetName(t.vni));
      InitialMatches(config, entries);
      if t.entry.mac == s.entry.mac {
        SameMacSameEntry(entries, s, t);
      }
    }
  }

  lemma RenewedIsReusable(config: Config, revision: string, before: seq<Attachment>, after: seq<Attachment>)
    requires OneRevision(config, revision) && DistinctConfig(config) && Reusable(config, revision, before)
    requires Renewed(Initial(config), before, after) && AllWanted(after, Initial(config))
    ensures forall x | x in after :: x.revision == Some(revision) && x.state.Some?
    ensures NicsApart(config, after)
  {
    InitialMatches(config, []);
    forall x | x in after && x !in before
      ensures x.revision == Some(revision) && x.state.Some?
      ensures forall y | y in before && Wanted(y, Initial(config)) :: y.spec.value.nicId != x.spec.value.nicId
    {
      MadeCarries(config, revision, before, x);
    }
  }

  /** Such attachments, made complete for the config, are what the fast path asks for. */
  lemma RenewedTakesFastPath(config: Config, revision: string, before: seq<Attachment>, v: View)
    requires OneRevision(config, revision) && DistinctConfig(config) && EntriesUsable(config)
    requires Reusable(config, revision, before) && Renewed(Initial(config), before, v.attachments)
    requires UniqueIds(v.attachments) && NoneOn(v.attachments, VnetName(0))
    requires AllWanted(v.attachments, Initial(config)) && AllHeld(Initial(config), v.attachments)
    requires exists e | e in config :: e.vni != 0
    ensures TakesFastPath(config, v)
  {
    RenewedIsReusable(config, revision, before, v.attachments);
    AttachedIsInSync(config, v.attachments);
    var e :| e in config && e.vni != 0;
    EntryHasAttachment(config, e, v.attachments);
    assert v.attachments[0] in v.attachments && config[0] in config;
  }

  /** The update attaches everything, but a network that has to go stays and fails it. */
  lemma FailedDelete(a: View, b: View, c: View, d: View, config: Config, r: Result<seq<Status>, string>)
    requires FullRun(true, false, a, b, c, d, Initial(config), r) && Convergent(config, a)
    requires !AllInConfig(a.networks, Initial(config))
    ensures r.Err? && |d.log| == |c.log| + 1 && !NetworksMatch(Initial(config), d.networks) && Convergent(config, d)
    ensures AllWanted(d.attachments, Initial(config)) && AllHeld(Initial(config), d.attachments)
    ensures Renewed(Initial(config), a.attachments, d.attachments)
    ensures NoneOn(a.attachments, VnetName(0)) ==> NoneOn(d.attachments, VnetName(0))
  {
    InitialMatches(config, []);
    UpdateConverges(false, a, b, c, d, Initial(config), r);
    UpdateIsSafe(true, false, a, b, c, d, Initial(config), r);
    var n :| n in a.networks && !InConfig(n, Initial(config));
    assert n in d.networks;
  }

  /**
   A full update of a good config in which every call succeeds but the delete of a network. If
   a network has to go and some entry is attached, the update ends at that one failed delete
   with its attachments done, and from there the same config takes the fast path.
   */
  lemma FailedDeleteIsForgotten(a: View, b: View, c: View, d: View, config: Config, revision: string,
                                r: Result<seq<Status>, string>)
    requires FullRun(true, false, a, b, c, d, Initial(config), r) && Convergent(config, a)
    requires OneRevision(config, revision) && (exists e | e in config :: e.vni != 0)
             && Reusable(config, revision, a.attachments)
    requires !AllInConfig(a.networks, Initial(config))
    ensures r.Err? && |d.log| == |c.log| + 1
    ensures TakesFastPath(config, d) && !NetworksMatch(Initial(config), d.networks) && Convergent(config, d)
  {
    FailedDelete(a, b, c, d, config, r);
    RenewedTakesFastPath(config, revision, a.attachments, d);
  }

  // ---- Repeated reconciles

  lemma IdleKeepsFastPath(a: View, b: View, config: Config)
    requires Idle(a, b) && TakesFastPath(config, a) && forall x | x in b.attachments :: x.state.Some?
    ensures TakesFastPath(config, b)
  {
    assert Keys(a.attachments) == Keys(b.attachments);
  }

  lemma IdleKeepsMismatch(a: View, b: View, entries: seq<Status>)
    requires Idle(a, b)
    ensures NetworksMatch(entries, b.networks) ==> NetworksMatch(entries, a.networks)
  {
    if NetworksMatch(entries, b.networks) {
      forall n | n in a.networks
        ensures InConfig(n, entries)
      {
        var i :| 0 <= i < |a.networks| && a.networks[i] == n;
        assert b.networks[i] in b.networks;
      }
      forall s | s in entries && s.vni != 0
        ensures HasVni(a.networks, s.vni)
      {
        var n :| n in b.networks && n.vni.Some? && n.vni.value == s.vni;
        var i :| 0 <= i < |b.networks| && b.networks[i] == n;
        assert a.networks[i] in a.networks;
      }
    }
  }

  /** A reconcile of that config in which all calls succeed, while attachments keep having a state. */
  ghost predicate Repeats(config: Config, x: Round) {
    x.config == config && x.healthy && forall t | t in x.start.attachments :: t.state.Some?
  }

  /**
   On the fast path past wrong networks, any number of reconciles of the same config succeed,
   make no call, and leave the networks wrong.
   */
  lemma {:induction false} StaleNetworksStay(config: Config, first: View, rounds: seq<Round>)
    requires History(first, rounds) && forall x | x in rounds :: Repeats(config, x)
    requires TakesFastPath(config, first) && !NetworksMatch(Initial(config), first.networks)
    ensures forall x | x in rounds ::
              x.result.Ok? && x.end.log == first.log && !NetworksMatch(Initial(config), x.end.networks)
    decreases |rounds|
  {
    if rounds != [] {
      var x := rounds[0];
      assert Repeats(config, x);
      IdleKeepsFastPath(first, x.start, config);
      IdleKeepsMismatch(first, x.start, Initial(config));
      StaleNetworksStay(config, x.end, rounds[1..]);
    }
  }
}
