/**
 The fast path taken when the server's revision is the config's, its agreement with the full
 update, and the reconcile that chooses between them.
 */
module WeaveFastPath {
  import opened Wrappers
  import opened WeaveModel
  import opened WeaveServer
  import opened WeaveSync
  import opened WeaveNetworks
  import opened WeaveAttachments
  import opened WeaveUpdate
  import opened WeaveReconcile
  import opened WeaveGuarantees

  // ---- What a successful sync says

  /** The statuses were synced: attachments and attached entries pair off by `picks`. */
  ghost predicate Synced(config: Config, attachments: seq<Attachment>, statuses: seq<Status>, picks: seq<Option<nat>>) {
    |picks| == |config| && Paired(config, attachments, statuses, picks, Indices(|attachments|))
  }

  lemma SyncedEntry(config: Config, attachments: seq<Attachment>, statuses: seq<Status>, picks: seq<Option<nat>>,
                    i: nat)
    requires Synced(config, attachments, statuses, picks) && i < |config|
    ensures StatusFor(statuses[i], config[i], PickedBy(attachments, picks[i]))
    ensures config[i].vni != 0 ==> picks[i].Some? && picks[i].value < |attachments|
  {
  }

  /** Every attachment is the one picked for some attached entry. */
  lemma SyncedAttachment(config: Config, attachments: seq<Attachment>, statuses: seq<Status>, picks: seq<Option<nat>>,
                         a: Attachment)
    returns (i: nat)
    requires Synced(config, attachments, statuses, picks) && a in attachments
    ensures i < |config| && config[i].vni != 0 && EntryUsable(config[i]) && KeyOf(a) == EntryKey(config[i])
    ensures PickedBy(attachments, picks[i]) == Some(a)
  {
    var x: nat :| x < |attachments| && attachments[x] == a;
    assert x in Indices(|attachments|);
    i :| 0 <= i < |picks| && picks[i] == Some(x);
    SyncedEntry(config, attachments, statuses, picks, i);
  }

  lemma SyncedIsHeld(config: Config, attachments: seq<Attachment>, statuses: seq<Status>, picks: seq<Option<nat>>,
                     s: Status, i: nat)
    requires Synced(config, attachments, statuses, picks) && i < |config| && config[i].vni != 0
    requires s.entry == config[i] && s.vni == config[i].vni
    ensures Held(s, attachments)
  {
    SyncedEntry(config, attachments, statuses, picks, i);
    var a := attachments[picks[i].value];
    assert a in attachments && HasKey(a, s.entry.mac, VnetName(s.vni));
  }

  /** A successful sync reports the config's entries, and the Ready ones are attached. */
  lemma SyncedMeansAttached(config: Config, attachments: seq<Attachment>, statuses: seq<Status>,
                            picks: seq<Option<nat>>)
    requires Synced(config, attachments, statuses, picks)
    ensures MatchesConfig(config, statuses) && ReadyMeansHeld(statuses, attachments)
  {
    forall i | 0 <= i < |config|
      ensures statuses[i].entry == config[i] && statuses[i].vni == config[i].vni
      ensures config[i].vni != 0 ==> Held(statuses[i], attachments)
    {
      SyncedEntry(config, attachments, statuses, picks, i);
      if config[i].vni != 0 {
        SyncedIsHeld(config, attachments, statuses, picks, statuses[i], i);
      }
    }
  }

  lemma SyncedEntryIsReady(config: Config, attachments: seq<Attachment>, statuses: seq<Status>,
                           picks: seq<Option<nat>>, i: nat)
    requires Synced(config, attachments, statuses, picks) && AttachmentsReady(attachments) && i < |config|
    ensures IsReady(statuses[i])
  {
    SyncedEntry(config, attachments, statuses, picks, i);
    if config[i].vni != 0 {
      assert attachments[picks[i].value] in attachments;
    }
  }

  lemma SyncedIsReady(config: Config, attachments: seq<Attachment>, statuses: seq<Status>, picks: seq<Option<nat>>)
    requires Synced(config, attachments, statuses, picks) && AttachmentsReady(attachments)
    ensures AllEntriesReady(statuses)
  {
    forall s | s in statuses
      ensures IsReady(s)
    {
      var i :| 0 <= i < |statuses| && statuses[i] == s;
      SyncedEntryIsReady(config, attachments, statuses, picks, i);
    }
  }

  /** Then a full update would find every entry attached and every attachment wanted. */
  lemma SyncedIsSettled(config: Config, attachments: seq<Attachment>, statuses: seq<Status>, picks: seq<Option<nat>>)
    requires Synced(config, attachments, statuses, picks) && DistinctConfig(config)
    ensures IsSettled(Initial(config), attachments)
  {
    var entries := Initial(config);
    InitialMatches(config, entries);
    forall a | a in attachments
      ensures Wanted(a, entries)
    {
      var i := SyncedAttachment(config, attachments, statuses, picks, a);
      assert HasKey(a, entries[i].entry.mac, VnetName(entries[i].vni));
    }
    forall s | s in entries && s.vni != 0
      ensures Held(s, attachments)
    {
      var i: nat :| i < |entries| && entries[i] == s;
      SyncedIsHeld(config, attachments, statuses, picks, s, i);
    }
    WantedAndHeldIsSettled(entries, attachments);
  }

  lemma SyncedAgrees(config: Config, attachments: seq<Attachment>, statuses: seq<Status>, picks: seq<Option<nat>>,
                     i: nat, s: Status)
    requires Synced(config, attachments, statuses, picks) && DistinctConfig(config) && i < |config|
    requires Copied(InitialStatus(config[i]), s, attachments)
    ensures s == statuses[i]
  {
    SyncedEntry(config, attachments, statuses, picks, i);
    if config[i].vni != 0 {
      var a :| a in attachments && HasKey(a, config[i].mac, VnetName(config[i].vni))
        && s == WithState(InitialStatus(config[i]), StateOf(a));
      var j := SyncedAttachment(config, attachments, statuses, picks, a);
      assert config[j].mac == config[i].mac;
    }
  }

  lemma SyncedAgreesWithCopied(config: Config, attachments: seq<Attachment>, statuses: seq<Status>,
                               picks: seq<Option<nat>>, done: seq<Status>)
    requires Synced(config, attachments, statuses, picks) && DistinctConfig(config)
    requires |done| == |config| && AllCopied(Initial(config), done, attachments)
    ensures done == statuses
  {
    forall i | 0 <= i < |config|
      ensures done[i] == statuses[i]
    {
      SyncedAgrees(config, attachments, statuses, picks, i, done[i]);
    }
  }

  lemma SameEntriesSettled(a: seq<Status>, b: seq<Status>, attachments: seq<Attachment>)
    requires SameEntries(a, b) && IsSettled(a, attachments)
    ensures IsSettled(b, attachments)
  {
    SameEntriesAgree(a, b, attachments);
    forall s | s in b && s.vni != 0
      ensures Held(s, attachments) && NoConflict(s, attachments)
    {
      var i :| 0 <= i < |b| && b[i] == s;
      assert a[i] in a && Held(a[i], attachments) && NoConflict(a[i], attachments);
      assert Held(s, attachments);
    }
  }

  lemma SettledTwo(healthy: bool, b: View, c: View, entries: seq<Status>, two: Result<seq<Status>, string>)
    requires PhaseTwo(healthy, b, c, entries, two) && IsSettled(entries, b.attachments)
    ensures c.log == b.log && (two.Ok? ==> SameAttachments(b.attachments, c.attachments))
  {
  }

  lemma SettledTail(healthy: bool, drops: bool, b: View, c: View, d: View, entries: seq<Status>,
                    r: Result<seq<Status>, string>)
    requires TailRun(healthy, drops, b, c, d, entries, r) && IsSettled(entries, b.attachments)
    ensures c.log == b.log
    ensures r.Ok? ==> SameAttachments(b.attachments, d.attachments)
  {
    var two, three :| TailSteps(healthy, drops, b, c, d, entries, two, three, r);
    SettledTwo(healthy, b, c, entries, two);
  }

  lemma SettledHealthyTail(drops: bool, b: View, c: View, d: View, entries: seq<Status>, r: Result<seq<Status>, string>)
    requires TailRun(true, drops, b, c, d, entries, r) && IsSettled(entries, b.attachments)
    ensures drops ==> r.Ok?
    ensures r.Ok? ==> |r.value| == |entries| && AllCopied(entries, r.value, b.attachments)
  {
    var two, three :| TailSteps(true, drops, b, c, d, entries, two, three, r);
    SettledPhaseTwo(b, c, entries, two);
  }

  /**
   The fast path refines the full update as far as attachments and statuses go. Where a sync
   succeeds, a full update creates and deletes no attachment, whatever calls fail; and if the
   networks are in order and all calls succeed, it reports the very statuses the sync reports.
   It is only the networks that the full update would still change.
   */
  lemma FastRefinesFull(healthy: bool, drops: bool, a: View, b: View, c: View, d: View, config: Config,
                        r: Result<seq<Status>, string>,
                        statuses: seq<Status>, picks: seq<Option<nat>>)
    requires FullRun(healthy, drops, a, b, c, d, Initial(config), r)
    requires Synced(config, a.attachments, statuses, picks) && DistinctConfig(config)
    ensures c.log == b.log
    ensures r.Ok? ==> SameAttachments(a.attachments, d.attachments)
    ensures healthy && Named(a.networks) && AllReady(a.networks) && (drops || r.Ok?) ==> r == Ok(statuses)
  {
    var entries := Initial(config);
    SyncedIsSettled(config, a.attachments, statuses, picks);
    var one :| FullSteps(healthy, drops, a, b, c, d, entries, one, r);
    if one.Ok? {
      SameEntriesSettled(entries, one.value, a.attachments);
      SettledTail(healthy, drops, b, c, d, one.value, r);
      if healthy && Named(a.networks) && AllReady(a.networks) {
        SettledHealthyTail(drops, b, c, d, entries, r);
        if r.Ok? {
          SyncedAgreesWithCopied(config, a.attachments, statuses, picks, r.value);
        }
      }
    }
  }

  // ---- The choice

  predicate SameRevision(config: Config, attachments: seq<Attachment>) {
    config != [] && attachments != [] && attachments[0].revision == Some(config[0].revision)
  }

  /** build_synced_astra_config_status_if_version_unchanged */
  method TryFastPath(server: Server, config: Config)
    returns (r: Result<Option<seq<Status>>, string>, ghost picks: seq<Option<nat>>)
    requires server.Valid()
    modifies server`attachments
    ensures server.Valid() && SameAttachments(old(server.attachments), server.attachments)
    ensures server.healthy ==> server.attachments == old(server.attachments)
    ensures r.Ok? && config != [] ==>
              (r.value.Some? <==> && server.attachments != []
                                  && server.attachments[0].revision == Some(config[0].revision)
                                  && InSync(config, server.attachments))
    ensures r.Ok? && r.value.Some? ==> Synced(config, server.attachments, r.value.value, picks)
    ensures config == [] ==> r == Ok(None)
    ensures config != [] && config[0].revision == "" ==> r.Err?
    ensures r.Err? ==> config != [] && (config[0].revision == "" || !server.healthy)
  {
    picks := [];
    if config == [] {
      return Ok(None), picks;
    }
    var revision := config[0].revision;
    if revision == "" {
      return Err("missing revision"), picks;
    }
    var listed := server.ListAttachments();
    if listed.Err? {
      return Err(listed.error), picks;
    }
    if listed.value == [] || listed.value[0].revision != Some(revision) {
      return Ok(None), picks;
    }
    var synced;
    synced, picks := SyncStatus(config, listed.value);
    r := Ok(if synced.Ok? then Some(synced.value) else None);
  }

  /**
   What a reconcile guarantees, by either path. Whatever calls fail: attachments go only to
   networks that are there and Ready, VNIs keep at most one network, a well-formed server stays
   well-formed and is only called safely, and success means the statuses are the config's and
   the Ready ones are attached. A healthy server keeps its attachments Ready; on the fast path
   it is left as it is, and by the full update it converges; attachments end up on their entries'
   functions exactly if those that were there did. So a reconcile converges exactly unless it
   takes the fast path past networks that are not the config's. A server that has converged and
   is Ready is left alone.
   */
  ghost predicate Outcome(healthy: bool, drops: bool, a: View, d: View, config: Config,
                          r: Result<seq<Status>, string>) {
    && SafeOutcome(a, d, config)
    && (r.Ok? ==> OkOutcome(a, d, config, r.value))
    && (healthy ==> HealthyOutcome(drops, a, d, config, r))
  }

  ghost predicate HealthyOutcome(drops: bool, a: View, d: View, config: Config, r: Result<seq<Status>, string>) {
    && (AttachmentsReady(a.attachments) ==> AttachmentsReady(d.attachments))
    && (TakesFastPath(config, a) ==> r.Ok? && SameServer(a, d))
    && (Convergent(config, a) ==>
        (AllCarry(Initial(config), d.attachments) <==> AllCarry(Initial(config), a.attachments)))
    && (drops && Convergent(config, a) ==> r.Ok? && (Converged(Initial(config), d) <==> MayConverge(config, a)))
    && (AtRest(config, a) ==> SameServer(a, d) && r.Ok? && AllEntriesReady(r.value))
  }

  predicate TakesFastPath(config: Config, v: View) {
    SameRevision(config, v.attachments) && InSync(config, v.attachments)
  }

  /** Every entry of the config can be attached, each on a NIC of its own. */
  ghost predicate GoodConfig(config: Config) {
    DistinctConfig(config) && EntriesUsable(config) && CanAttachAll(Initial(config))
  }

  /** A well-formed server with Ready networks, and a good config. */
  ghost predicate Convergent(config: Config, v: View) {
    WellFormed(v.networks, v.attachments) && AllReady(v.networks) && GoodConfig(config)
  }

  /** The networks are looked at, or are as they should be. */
  ghost predicate MayConverge(config: Config, v: View) {
    TakesFastPath(config, v) ==> NetworksMatch(Initial(config), v.networks)
  }

  ghost predicate SafeOutcome(a: View, d: View, config: Config) {
    && AttachesOnlyReady(a.log, d.log)
    && (OnePerVni(a.networks) ==> OnePerVni(d.networks))
    && (WellFormed(a.networks, a.attachments) ==> WellFormed(d.networks, d.attachments))
    && (WellFormed(a.networks, a.attachments) && DistinctConfig(config) ==> SafeSince(a.log, d.log, Initial(config)))
  }

  ghost predicate OkOutcome(a: View, d: View, config: Config, statuses: seq<Status>) {
    && MatchesConfig(config, statuses)
    && (WellFormed(a.networks, a.attachments) && DistinctConfig(config) ==> ReadyMeansHeld(statuses, d.attachments))
  }

  /** The server has converged to the config, and everything on it is Ready. */
  ghost predicate AtRest(config: Config, v: View) {
    && Converged(Initial(config), v) && AttachmentsReady(v.attachments)
    && DistinctConfig(config) && EntriesUsable(config)
  }

  lemma Drifted(a: View, l: View, config: Config)
    requires SameAttachments(a.attachments, l.attachments) && l == a.(attachments := l.attachments)
    ensures WellFormed(a.networks, a.attachments) ==> WellFormed(l.networks, l.attachments)
  {
    SameAttachmentsKeep(a.attachments, l.attachments, Initial(config));
  }

  /** On the fast path only the networks can be amiss. */
  lemma SyncedConvergedIff(a: View, config: Config, statuses: seq<Status>, picks: seq<Option<nat>>)
    requires Synced(config, a.attachments, statuses, picks) && Convergent(config, a)
    ensures Converged(Initial(config), a) <==> NetworksMatch(Initial(config), a.networks)
  {
    SyncedIsSettled(config, a.attachments, statuses, picks);
  }

  lemma FastHealthyOutcome(drops: bool, a: View, config: Config, statuses: seq<Status>, picks: seq<Option<nat>>)
    requires Synced(config, a.attachments, statuses, picks) && TakesFastPath(config, a)
    ensures HealthyOutcome(drops, a, a, config, Ok(statuses))
  {
    if Convergent(config, a) {
      SyncedConvergedIff(a, config, statuses, picks);
    }
    if AttachmentsReady(a.attachments) {
      SyncedIsReady(config, a.attachments, statuses, picks);
    }
  }

  lemma FastOutcome(healthy: bool, drops: bool, a: View, l: View, config: Config, statuses: seq<Status>,
                    picks: seq<Option<nat>>)
    requires SameAttachments(a.attachments, l.attachments) && l == a.(attachments := l.attachments)
    requires healthy ==> l == a
    requires Synced(config, l.attachments, statuses, picks) && TakesFastPath(config, l)
    ensures Outcome(healthy, drops, a, l, config, Ok(statuses))
  {
    Drifted(a, l, config);
    SyncedMeansAttached(config, l.attachments, statuses, picks);
    if healthy {
      FastHealthyOutcome(drops, a, config, statuses, picks);
    }
  }

  lemma FailedOutcome(healthy: bool, drops: bool, a: View, l: View, config: Config, r: Result<seq<Status>, string>)
    requires SameAttachments(a.attachments, l.attachments) && l == a.(attachments := l.attachments)
    requires r.Err? && (healthy ==> l == a && !EntriesUsable(config))
    ensures Outcome(healthy, drops, a, l, config, r)
  {
    Drifted(a, l, config);
  }

  lemma FullIsSafe(healthy: bool, drops: bool, a: View, l: View, b: View, c: View, d: View, config: Config,
                   r: Result<seq<Status>, string>)
    requires SameAttachments(a.attachments, l.attachments) && l == a.(attachments := l.attachments)
    requires FullRun(healthy, drops, l, b, c, d, Initial(config), r)
    ensures SafeOutcome(a, d, config)
  {
    Drifted(a, l, config);
    InitialMatches(config, []);
    UpdateIsSafe(healthy, drops, l, b, c, d, Initial(config), r);
  }

  lemma FullIsOk(healthy: bool, drops: bool, a: View, l: View, b: View, c: View, d: View, config: Config,
                 r: Result<seq<Status>, string>)
    requires SameAttachments(a.attachments, l.attachments) && l == a.(attachments := l.attachments)
    requires FullRun(healthy, drops, l, b, c, d, Initial(config), r) && r.Ok?
    ensures OkOutcome(a, d, config, r.value)
  {
    Drifted(a, l, config);
    InitialMatches(config, r.value);
    OkMeansAttached(healthy, drops, l, b, c, d, Initial(config), r);
  }

  lemma FullRests(drops: bool, a: View, b: View, c: View, d: View, config: Config, r: Result<seq<Status>, string>)
    requires FullRun(true, drops, a, b, c, d, Initial(config), r) && AtRest(config, a)
    ensures SameServer(a, d) && r.Ok? && AllEntriesReady(r.value)
  {
    InitialMatches(config, []);
    UpdateLeavesConverged(drops, a, b, c, d, Initial(config), r);
  }

  lemma FullConverges(a: View, b: View, c: View, d: View, config: Config, r: Result<seq<Status>, string>)
    requires FullRun(true, true, a, b, c, d, Initial(config), r) && Convergent(config, a)
    ensures r.Ok? && Converged(Initial(config), d)
  {
    InitialMatches(config, []);
    UpdateConverges(true, a, b, c, d, Initial(config), r);
  }

  lemma FullCarries(drops: bool, a: View, b: View, c: View, d: View, config: Config, r: Result<seq<Status>, string>)
    requires FullRun(true, drops, a, b, c, d, Initial(config), r) && Convergent(config, a)
    ensures AllCarry(Initial(config), d.attachments) <==> AllCarry(Initial(config), a.attachments)
  {
    InitialMatches(config, []);
    UpdateConverges(drops, a, b, c, d, Initial(config), r);
    FunctionsRightIff(Initial(config), a.attachments, d.attachments);
  }

  lemma FullHealthyOutcome(drops: bool, a: View, b: View, c: View, d: View, config: Config,
                           r: Result<seq<Status>, string>)
    requires FullRun(true, drops, a, b, c, d, Initial(config), r) && !TakesFastPath(config, a)
    ensures HealthyOutcome(drops, a, d, config, r)
  {
    if AttachmentsReady(a.attachments) {
      UpdateKeepsReady(drops, a, b, c, d, Initial(config), r);
    }
    if Convergent(config, a) {
      FullCarries(drops, a, b, c, d, config, r);
    }
    if drops && Convergent(config, a) {
      FullConverges(a, b, c, d, config, r);
    }
    if AtRest(config, a) {
      FullRests(drops, a, b, c, d, config, r);
    }
  }

  lemma FullOutcome(healthy: bool, drops: bool, a: View, l: View, b: View, c: View, d: View, config: Config,
                    r: Result<seq<Status>, string>)
    requires SameAttachments(a.attachments, l.attachments) && l == a.(attachments := l.attachments)
    requires healthy ==> l == a
    requires FullRun(healthy, drops, l, b, c, d, Initial(config), r) && (healthy ==> !TakesFastPath(config, a))
    ensures Outcome(healthy, drops, a, d, config, r)
  {
    FullIsSafe(healthy, drops, a, l, b, c, d, config, r);
    if r.Ok? {
      FullIsOk(healthy, drops, a, l, b, c, d, config, r);
    }
    if healthy {
      FullHealthyOutcome(drops, a, b, c, d, config, r);
    }
  }

  /** update_weave_ew_vpc_astra_config_uds */
  method Reconcile(server: Server, config: Option<Config>) returns (r: Result<seq<Status>, string>)
    requires server.Valid()
    modifies server`networks, server`ready, server`attachments, server`used, server`log
    ensures server.Valid()
    ensures config.None? ==> r == Ok([]) && server.Now() == old(server.Now())
    ensures config.Some? ==> Outcome(server.healthy, server.drops, old(server.Now()), server.Now(), config.value, r)
  {
    if config.None? {
      return Ok([]);
    }
    ghost var a := server.Now();
    var fast, picks := TryFastPath(server, config.value);
    ghost var l := server.Now();
    if fast.Err? {
      r := Err(fast.error);
      assert config.value[0] in config.value;
      FailedOutcome(server.healthy, server.drops, a, l, config.value, r);
      return;
    }
    if fast.value.Some? {
      r := Ok(fast.value.value);
      FastOutcome(server.healthy, server.drops, a, l, config.value, fast.value.value, picks);
      return;
    }
    ghost var b, c;
    r, b, c := FullUpdate(server, config.value);
    if EntriesUsable(config.value) {
      FullOutcome(server.healthy, server.drops, a, l, b, c, server.Now(), config.value, r);
    } else {
      FailedOutcome(server.healthy, server.drops, a, l, config.value, r);
    }
  }

  // ---- Any number of reconciles

  /** Between two reconciles the server may change phases, and nothing else. */
  ghost predicate Idle(a: View, b: View) {
    SameNetworks(a.networks, b.networks) && SameAttachments(a.attachments, b.attachments) && b.log == a.log
  }

  datatype Round = Round(config: Config, healthy: bool, drops: bool, start: View, end: View,
                         result: Result<seq<Status>, string>)

  ghost predicate IsReconcile(x: Round) {
    Outcome(x.healthy, x.drops, x.start, x.end, x.config, x.result)
  }

  /** Reconciles one after the other, of any configs and with any failures. */
  ghost predicate History(first: View, rounds: seq<Round>)
    decreases |rounds|
  {
    rounds == [] || (Idle(first, rounds[0].start) && IsReconcile(rounds[0]) && History(rounds[0].end, rounds[1..]))
  }

  ghost predicate Orderly(v: View) {
    OnePerVni(v.networks) && WellFormed(v.networks, v.attachments)
  }

  ghost predicate RoundIsSafe(x: Round) {
    Orderly(x.end) && (DistinctConfig(x.config) ==> SafeSince(x.start.log, x.end.log, Initial(x.config)))
  }

  lemma IdleKeeps(a: View, b: View)
    requires Idle(a, b)
    ensures OnePerVni(a.networks) ==> OnePerVni(b.networks)
    ensures WellFormed(a.networks, a.attachments) ==> WellFormed(b.networks, b.attachments)
  {
    SameNetworksKeepShape(a.networks, b.networks);
    SameAttachmentsKeep(a.attachments, b.attachments, []);
  }

  lemma OneRound(first: View, x: Round)
    requires Orderly(first) && Idle(first, x.start) && IsReconcile(x)
    ensures Orderly(x.start) && RoundIsSafe(x)
  {
    IdleKeeps(first, x.start);
  }

  /** A server that starts orderly stays orderly, and every call of every reconcile is safe. */
  lemma {:induction false} HistoryIsSafe(first: View, rounds: seq<Round>)
    requires Orderly(first) && History(first, rounds)
    ensures forall x | x in rounds :: Orderly(x.start) && RoundIsSafe(x)
    decreases |rounds|
  {
    if rounds != [] {
      OneRound(first, rounds[0]);
      HistoryIsSafe(rounds[0].end, rounds[1..]);
    }
  }

  lemma {:induction false} EachIsReconcile(first: View, rounds: seq<Round>)
    requires History(first, rounds)
    ensures forall x | x in rounds :: IsReconcile(x)
    decreases |rounds|
  {
    if rounds != [] {
      EachIsReconcile(rounds[0].end, rounds[1..]);
    }
  }

  /**
   Recovery. Whatever came before, with any configs and any failures, a reconcile of a good
   config in which all calls succeed, on Ready networks, ends with success; and it converges
   exactly unless it takes the fast path past networks that are not the config's.
   */
  lemma RecoversAfterHistory(first: View, rounds: seq<Round>, x: Round)
    requires Orderly(first) && History(first, rounds) && x in rounds
    requires x.healthy && x.drops && AllReady(x.start.networks) && GoodConfig(x.config)
    ensures x.result.Ok?
    ensures Converged(Initial(x.config), x.end) <==> MayConverge(x.config, x.start)
  {
    HistoryIsSafe(first, rounds);
    EachIsReconcile(first, rounds);
    assert Convergent(x.config, x.start);
  }

  /** Reconciling twice with Ready attachments and no failures: the second one makes no call. */
  lemma SecondMakesNoCall(x: Round, y: Round)
    requires IsReconcile(x) && IsReconcile(y) && y.config == x.config && y.start == x.end
    requires x.healthy && x.drops && y.healthy
    requires Convergent(x.config, x.start) && AttachmentsReady(x.start.attachments) && MayConverge(x.config, x.start)
    ensures SameServer(x.end, y.end) && y.result.Ok? && AllEntriesReady(y.result.value)
  {
    assert AtRest(x.config, x.end);
  }
}
