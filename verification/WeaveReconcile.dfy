/**
 A reconcile as a whole: the revision-based fast path, the ordered three-phase update, and
 what holds of them whatever calls fail, and when all calls succeed.
 */
module WeaveReconcile {
  import opened Wrappers
  import opened WeaveModel
  import opened WeaveServer
  import opened WeaveSync
  import opened WeaveNetworks
  import opened WeaveAttachments
  import opened WeaveUpdate

  // ---- The status list a reconcile starts from

  function InitialStatus(e: Entry): Status {
    Status(e, e.vni, READY_STATUS)
  }

  function Initial(config: Config): (r: seq<Status>)
    ensures |r| == |config| && forall i | 0 <= i < |config| :: r[i] == InitialStatus(config[i])
  {
    seq(|config|, i requires 0 <= i < |config| => InitialStatus(config[i]))
  }

  /** The statuses are those of the config's entries, in order. */
  predicate MatchesConfig(config: Config, statuses: seq<Status>) {
    |statuses| == |config| && forall i | 0 <= i < |config| ::
      statuses[i].entry == config[i] && statuses[i].vni == config[i].vni
  }

  /** build_astra_config_status */
  method BuildStatus(config: Config) returns (r: Result<seq<Status>, string>)
    ensures r.Ok? <==> forall e | e in config :: e.revision != "" && e.vni <= 0x7FFF_FFFF
    ensures r.Ok? <==> EntriesUsable(config)
    ensures r.Ok? ==> r.value == Initial(config)
  {
    var statuses: seq<Status> := [];
    for i := 0 to |config|
      invariant |statuses| == i && forall j | 0 <= j < i ::
                  EntryUsable(config[j]) && statuses[j] == InitialStatus(config[j])
    {
      var e := config[i];
      assert e in config;
      if e.revision == "" {
        return Err("missing revision");
      }
      if e.vni > MAX_I32 {
        return Err("VNI does not fit in i32");
      }
      statuses := statuses + [Status(e, e.vni, READY_STATUS)];
    }
    r := Ok(statuses);
  }

  // ---- Well-formedness and safety

  predicate DistinctConfig(config: Config) {
    forall i, j | 0 <= i < j < |config| :: config[i].mac != config[j].mac
  }

  /** Networks are named after their VNIs; attachment ids are unique and not empty. */
  predicate WellFormed(networks: seq<Network>, attachments: seq<Attachment>) {
    Named(networks) && UniqueIds(attachments)
  }

  /**
   No network is deleted while something is attached to it, attachments are created only on
   a network that is there and was reported Ready, and only attachments that are there and
   not in the config are deleted.
   */
  ghost predicate SafeCall(c: Call, entries: seq<Status>) {
    match c.action
    case AddNetwork(_, _) => true
    case DropNetwork(id) => NoneOn(c.attachments, id)
    case AddAttachment(spec) => HasId(c.networks, spec.vnetId) && spec.vnetId in c.ready
    case DropAttachment(id) => DropsStale(c.attachments, id, entries)
  }

  ghost predicate SafeSince(before: seq<Call>, log: seq<Call>, entries: seq<Status>) {
    before <= log && forall i | |before| <= i < |log| :: SafeCall(log[i], entries)
  }

  /** The part of safety that needs no well-formed server. */
  ghost predicate AttachesOnlyReady(before: seq<Call>, log: seq<Call>) {
    && before <= log
    && forall i | |before| <= i < |log| && log[i].action.AddAttachment? ::
         HasId(log[i].networks, log[i].action.spec.vnetId) && log[i].action.spec.vnetId in log[i].ready
  }

  lemma PhasesAreSafe(a: seq<Call>, b: seq<Call>, c: seq<Call>, d: seq<Call>, entries: seq<Status>)
    requires OnlyAddsNetworks(a, b) && AttachesSafely(b, c)
    ensures AttachesOnlyReady(a, b) && AttachesOnlyReady(a, c)
    ensures SafeSince(a, b, entries)
    ensures KeepsWanted(b, c, entries) ==> SafeSince(a, c, entries)
    ensures OnlyDropsNetworks(c, d) ==> AttachesOnlyReady(a, d)
    ensures KeepsWanted(b, c, entries) && OnlyDropsUnused(c, d) ==> SafeSince(a, d, entries)
  {
  }

  // ---- Entries that differ only in status

  lemma SameEntriesTransitive(a: seq<Status>, b: seq<Status>, c: seq<Status>)
    requires SameEntries(a, b) && SameEntries(b, c)
    ensures SameEntries(a, c)
  {
  }

  lemma SameEntriesAgree(a: seq<Status>, b: seq<Status>, attachments: seq<Attachment>)
    requires SameEntries(a, b)
    ensures AllWanted(attachments, a) <==> AllWanted(attachments, b)
    ensures DistinctMacs(a) <==> DistinctMacs(b)
  {
    forall x | x in attachments
      ensures Wanted(x, a) <==> Wanted(x, b)
    {
      SameEntriesWant(a, b, x);
    }
  }

  lemma SameEntriesInConfig(a: seq<Status>, b: seq<Status>, n: Network)
    requires SameEntries(a, b)
    ensures InConfig(n, a) <==> InConfig(n, b)
  {
    forall i | 0 <= i < |a|
      ensures a[i] in a && b[i] in b && a[i].vni == b[i].vni
    {
    }
  }

  lemma InitialMatches(config: Config, statuses: seq<Status>)
    ensures SameEntries(Initial(config), statuses) <==> MatchesConfig(config, statuses)
    ensures DistinctConfig(config) <==> DistinctMacs(Initial(config))
    ensures MatchesConfig(config, statuses) ==> Built(statuses)
  {
  }

  // ---- Convergence

  /** The server has the networks and the attachments of the entries and no others. */
  ghost predicate Converged(entries: seq<Status>, v: View) {
    && WellFormed(v.networks, v.attachments) && AllReady(v.networks)
    && NetworksMatch(entries, v.networks)
    && AllWanted(v.attachments, entries) && AllHeld(entries, v.attachments)
  }

  ghost predicate NetworksMatch(entries: seq<Status>, networks: seq<Network>) {
    VnisPresent(entries, networks) && AllInConfig(networks, entries)
  }

  lemma SiftedMatches(entries: seq<Status>, networks: seq<Network>, left: seq<Network>)
    requires AllReady(networks) && VnisPresent(entries, networks) && Sifted(networks, |networks|, left, entries)
    ensures AllReady(left) && NetworksMatch(entries, left)
  {
    forall s | s in entries && s.vni != 0
      ensures HasVni(left, s.vni)
    {
      var n :| n in networks && n.vni.Some? && n.vni.value == s.vni;
      assert InConfig(n, entries);
    }
    forall n | n in left
      ensures InConfig(n, entries)
    {
      var j :| 0 <= j < |networks| && networks[j] == n;
    }
  }

  lemma SameEntriesMatch(a: seq<Status>, b: seq<Status>, networks: seq<Network>, attachments: seq<Attachment>)
    requires SameEntries(a, b)
    ensures NetworksMatch(a, networks) ==> NetworksMatch(b, networks)
    ensures AllHeld(a, attachments) ==> AllHeld(b, attachments)
  {
    forall n | n in networks
      ensures InConfig(n, a) <==> InConfig(n, b)
    {
      SameEntriesInConfig(a, b, n);
    }
    forall s | s in b
      ensures exists i | 0 <= i < |a| ::
                a[i] in a && a[i].entry == s.entry && a[i].vni == s.vni
                  && (Held(a[i], attachments) <==> Held(s, attachments))
    {
      var i :| 0 <= i < |b| && b[i] == s;
      assert a[i] in a && (Held(a[i], attachments) <==> Held(s, attachments));
    }
  }

  /** With distinct NICs, having only wanted attachments leaves no conflicting ones. */
  lemma WantedAndHeldIsSettled(entries: seq<Status>, attachments: seq<Attachment>)
    requires DistinctMacs(entries) && AllWanted(attachments, entries) && AllHeld(entries, attachments)
    ensures Settled(entries, attachments)
  {
    forall s, a | s in entries && a in attachments
      ensures !Conflicts(a, s)
    {
      if Conflicts(a, s) {
        ConflictingIsUnwanted(a, s, entries);
      }
    }
  }

  // ---- The full update

  /** The second and the third phase, from `b` over `c` to `d`; a phase that fails ends the update. */
  ghost predicate TailSteps(healthy: bool, drops: bool, b: View, c: View, d: View, entries: seq<Status>,
                            two: Result<seq<Status>, string>, three: Result<(), string>, r: Result<seq<Status>,
                              string>) {
    && PhaseTwo(healthy, b, c, entries, two)
    && (if two.Err? then d == c && r.Err?
        else PhaseThree(healthy, drops, c, d, two.value, three) && (if three.Ok? then r == two else r.Err?))
  }

  ghost predicate TailRun(healthy: bool, drops: bool, b: View, c: View, d: View, entries: seq<Status>,
                          r: Result<seq<Status>, string>) {
    exists two, three :: TailSteps(healthy, drops, b, c, d, entries, two, three, r)
  }

  /** All three phases, from `a` on. */
  ghost predicate FullSteps(healthy: bool, drops: bool, a: View, b: View, c: View, d: View, entries: seq<Status>,
                            one: Result<seq<Status>, string>, r: Result<seq<Status>, string>) {
    && PhaseOne(healthy, a, b, entries, one)
    && (if one.Err? then c == b && d == b && r.Err? else TailRun(healthy, drops, b, c, d, one.value, r))
  }

  ghost predicate FullRun(healthy: bool, drops: bool, a: View, b: View, c: View, d: View, entries: seq<Status>,
                          r: Result<seq<Status>, string>) {
    exists one :: FullSteps(healthy, drops, a, b, c, d, entries, one, r)
  }

  method UpdateAndTrim(server: Server, entries: seq<Status>) returns (r: Result<seq<Status>, string>, ghost c: View)
    requires server.Valid() && Built(entries) && ReadyMeansUsable(entries, server.networks, server.ready)
    modifies server`networks, server`ready, server`attachments, server`used, server`log
    ensures server.Valid()
    ensures TailRun(server.healthy, server.drops, old(server.Now()), c, server.Now(), entries, r)
  {
    ghost var b := server.Now();
    r := UpdateAttachments(server, entries);
    c := server.Now();
    if r.Err? {
      assert TailSteps(server.healthy, server.drops, b, c, c, entries, r, Ok(()), r);
      return;
    }
    ghost var two := r;
    var trimmed := DeleteStaleNetworks(server, r.value);
    if trimmed.Err? {
      r := Err(trimmed.error);
    }
    assert TailSteps(server.healthy, server.drops, b, c, server.Now(), entries, two, trimmed, r);
  }

  method FullUpdate(server: Server, config: Config)
    returns (r: Result<seq<Status>, string>, ghost b: View, ghost c: View)
    requires server.Valid()
    modifies server`networks, server`ready, server`attachments, server`used, server`log
    ensures server.Valid()
    ensures !EntriesUsable(config) ==> r.Err? && server.Now() == old(server.Now())
    ensures EntriesUsable(config) ==>
              FullRun(server.healthy, server.drops, old(server.Now()), b, c, server.Now(), Initial(config), r)
  {
    ghost var a := server.Now();
    b, c := a, a;
    var built := BuildStatus(config);
    if built.Err? {
      return Err(built.error), b, c;
    }
    InitialMatches(config, built.value);
    var one := CreateVirtualNetworks(server, built.value);
    b, c, r := server.Now(), server.Now(), one;
    if one.Ok? {
      InitialMatches(config, one.value);
      r, c := UpdateAndTrim(server, one.value);
    }
    assert FullSteps(server.healthy, server.drops, a, b, c, server.Now(), Initial(config), one, r);
  }
}
