/**
 The first and the last phase of a reconcile: create the virtual networks the config needs,
 and delete the ones it no longer has.
 */
module WeaveNetworks {
  import opened Wrappers
  import opened WeaveModel
  import opened WeaveServer

  // ---- What is said about networks and entries

  predicate OnePerVni(networks: seq<Network>) {
    forall i, j | 0 <= i < j < |networks| :: networks[i].vni.Some? ==> networks[i].vni != networks[j].vni
  }

  /** Every network is named after its VNI, which is at least 1. */
  predicate Named(networks: seq<Network>) {
    forall n | n in networks :: n.vni.Some? && n.vni.value >= 1 && n.id == Some(VnetName(n.vni.value))
  }

  predicate AllReady(networks: seq<Network>) {
    forall n | n in networks :: ReportsReady(n)
  }

  predicate HasVni(networks: seq<Network>, vni: int) {
    exists n | n in networks :: n.vni.Some? && n.vni.value == vni
  }

  /** VNIs are non-negative, as those built from a config are. */
  predicate Built(entries: seq<Status>) {
    forall s | s in entries :: s.vni >= 0
  }

  /** `b` repeats the first entries of `a`, with any status. */
  predicate Follows(a: seq<Status>, b: seq<Status>) {
    |b| <= |a| && forall i | 0 <= i < |b| :: a[i].entry == b[i].entry && a[i].vni == b[i].vni
  }

  predicate SameEntries(a: seq<Status>, b: seq<Status>) {
    |a| == |b| && Follows(a, b)
  }

  /** The network of the entry is on the server and was reported Ready. */
  ghost predicate NetworkUsable(s: Status, networks: seq<Network>, ready: set<string>) {
    HasId(networks, VnetName(s.vni)) && VnetName(s.vni) in ready
  }

  ghost predicate ReadyMeansUsable(entries: seq<Status>, networks: seq<Network>, ready: set<string>) {
    forall s | s in entries && s.vni != 0 && IsReady(s) :: NetworkUsable(s, networks, ready)
  }

  /** `log` continues `before` with calls that only add networks. */
  predicate OnlyAddsNetworks(before: seq<Call>, log: seq<Call>) {
    before <= log && forall i | |before| <= i < |log| :: log[i].action.AddNetwork?
  }

  // ---- Phase 1

  type Seen = map<nat, (Option<string>, State)>

  predicate SeenAs(n: Network, v: nat, seen: (Option<string>, State)) {
    n.vni == Some(v) && seen == (UsableId(n.id), OrMissing(n.state, "Response is missing state"))
  }

  /** Of the first `n` networks, the `k`-th is the last one of that VNI, and so it is seen. */
  predicate SeenLast(listed: seq<Network>, n: nat, k: nat, v: nat, seen: (Option<string>, State)) {
    && k < n <= |listed| && SeenAs(listed[k], v, seen)
    && forall j | k < j < n :: listed[j].vni != Some(v)
  }

  /** The networks by VNI, as listed; a later one replaces an earlier one. */
  method CollectSeen(listed: seq<Network>) returns (seen: Seen)
    ensures forall n | n in listed && n.vni.Some? :: n.vni.value in seen
    ensures forall v | v in seen :: exists n | n in listed :: SeenAs(n, v, seen[v])
    ensures forall v | v in seen :: exists k :: SeenLast(listed, |listed|, k, v, seen[v])
  {
    seen := map[];
    ghost var last: map<nat, nat> := map[];
    for i := 0 to |listed|
      invariant forall n | n in listed[..i] && n.vni.Some? :: n.vni.value in seen
      invariant seen.Keys == last.Keys && forall v | v in seen :: SeenLast(listed, i, last[v], v, seen[v])
    {
      var n := listed[i];
      if n.vni.Some? {
        seen := seen[n.vni.value := (UsableId(n.id), OrMissing(n.state, "Response is missing state"))];
        last := last[n.vni.value := i];
      }
    }
    forall v | v in seen
      ensures exists n | n in listed :: SeenAs(n, v, seen[v])
    {
      assert listed[last[v]] in listed;
    }
  }

  /** What `seen` says is so, and what it leaves out was created under its own name. */
  ghost predicate SeenFits(seen: Seen, networks: seq<Network>, ready: set<string>) {
    && (forall v | v in seen && seen[v].0 == Some(VnetName(v)) && seen[v].1.phase == Ready ::
          HasId(networks, VnetName(v)) && VnetName(v) in ready)
    && (forall n | n in networks && n.vni.Some? :: n.vni.value in seen || n.id == Some(VnetName(n.vni.value)))
  }

  /** The orderly case: every network is seen under its name, and Ready. */
  ghost predicate SeenGood(seen: Seen, networks: seq<Network>) {
    && Named(networks) && AllReady(networks)
    && (forall v | v in seen :: seen[v].0 == Some(VnetName(v)) && seen[v].1.phase == Ready)
    && (forall n | n in networks && n.vni.Some? :: n.vni.value in seen)
    && (forall v | v in seen :: HasVni(networks, v))
  }

  lemma ListedFits(networks: seq<Network>, seen: Seen)
    requires forall n | n in networks && n.vni.Some? :: n.vni.value in seen
    requires forall v | v in seen :: exists n | n in networks :: SeenAs(n, v, seen[v])
    ensures SeenFits(seen, networks, ReadyIds(networks))
    ensures Named(networks) && AllReady(networks) ==> SeenGood(seen, networks)
  {
    forall v | v in seen && seen[v].0 == Some(VnetName(v)) && seen[v].1.phase == Ready
      ensures HasId(networks, VnetName(v)) && VnetName(v) in ReadyIds(networks)
    {
      var n :| n in networks && SeenAs(n, v, seen[v]);
      assert n.id == Some(VnetName(v)) && ReportsReady(n);
    }
    if Named(networks) && AllReady(networks) {
      forall v | v in seen
        ensures seen[v].0 == Some(VnetName(v)) && seen[v].1.phase == Ready && HasVni(networks, v)
      {
        var n :| n in networks && SeenAs(n, v, seen[v]);
        assert n.id == Some(VnetName(v)) && VnetName(v) != "" && ReportsReady(n);
      }
    }
  }

  /** The same, as the loop over the entries needs it. */
  method CollectFitting(listed: seq<Network>) returns (seen: Seen)
    ensures SeenFits(seen, listed, ReadyIds(listed))
    ensures Named(listed) && AllReady(listed) ==> SeenGood(seen, listed)
    ensures forall n | n in listed && n.vni.Some? :: n.vni.value in seen
  {
    seen := CollectSeen(listed);
    ListedFits(listed, seen);
  }

  /** A network that was just created under the name of its VNI. */
  ghost predicate Created(networks: seq<Network>, seen: Seen, n: Network, vni: nat) {
    && vni >= 1 && n.vni == Some(vni) && n.id == Some(VnetName(vni))
    && !HasId(networks, VnetName(vni)) && vni !in seen
  }

  lemma CreatedKeepsShape(networks: seq<Network>, seen: Seen, ready: set<string>, n: Network, vni: nat)
    requires Created(networks, seen, n, vni) && SeenFits(seen, networks, ready)
    ensures OnePerVni(networks) ==> OnePerVni(networks + [n])
    ensures Named(networks) ==> Named(networks + [n])
  {
    forall m | m in networks
      ensures m.vni != Some(vni)
    {
      assert m.id != Some(VnetName(vni));
    }
  }

  lemma IdsStay(networks: seq<Network>, n: Network, id: string)
    ensures HasId(networks, id) || n.id == Some(id) ==> HasId(networks + [n], id)
  {
    if n.id == Some(id) {
      assert n in networks + [n];
    } else if HasId(networks, id) {
      var m :| m in networks && m.id == Some(id);
      assert m in networks + [n];
    }
  }

  /** `seen` after a create whose answer showed the network. */
  function Noted(seen: Seen, n: Network, vni: nat): Seen {
    seen[vni := (Some(VnetName(vni)), OrMissing(n.state, "Response is missing state"))]
  }

  lemma CreatedFits(networks: seq<Network>, seen: Seen, ready: set<string>, n: Network, vni: nat, ready': set<string>)
    requires Created(networks, seen, n, vni) && SeenFits(seen, networks, ready) && ready <= ready'
    ensures SeenFits(seen, networks + [n], ready')
    ensures (ReportsReady(n) ==> VnetName(vni) in ready') ==> SeenFits(Noted(seen, n, vni), networks + [n], ready')
  {
    forall id: string
      ensures HasId(networks, id) || n.id == Some(id) ==> HasId(networks + [n], id)
    {
      IdsStay(networks, n, id);
    }
  }

  lemma CreatedGood(networks: seq<Network>, seen: Seen, n: Network, vni: nat)
    requires Created(networks, seen, n, vni)
    ensures HasVni(networks + [n], vni)
    ensures ReportsReady(n) && SeenGood(seen, networks) ==> SeenGood(Noted(seen, n, vni), networks + [n])
  {
    var after := networks + [n];
    assert n in after;
    if ReportsReady(n) && SeenGood(seen, networks) {
      forall v | v in Noted(seen, n, vni)
        ensures HasVni(after, v)
      {
        if v != vni {
          var m :| m in networks && m.vni.Some? && m.vni.value == v;
          assert m in after;
        }
      }
    }
  }

  /** In the orderly case an unseen VNI's name is free. */
  lemma NamedApart(networks: seq<Network>, seen: Seen, vni: nat)
    ensures SeenGood(seen, networks) && vni !in seen ==> !HasId(networks, VnetName(vni))
  {
    if SeenGood(seen, networks) && vni !in seen {
      forall n | n in networks
        ensures n.id != Some(VnetName(vni))
      {
        VnetNameInjective(n.vni.value, vni);
      }
    }
  }

  /** The status of an entry whose VNI has been seen. */
  function SeenStatus(s: Status, id: Option<string>, state: State): Status {
    if id != Some(VnetName(s.vni)) then WithState(s, State(Failed, "Conflicting DOCA Weave virtual network ID"))
    else if state.phase != Ready then WithState(s, state)
    else s
  }

  /** The create call for an unseen VNI, and what it keeps. */
  method CreateNamed(server: Server, ghost seen: Seen, vni: nat) returns (rsp: Result<Option<Network>, string>)
    requires SeenFits(seen, server.networks, server.ready) && vni >= 1 && vni !in seen
    modifies server`networks, server`ready, server`log
    ensures old(server.networks) <= server.networks && old(server.ready) <= server.ready
    ensures OnlyAddsNetworks(old(server.log), server.log)
    ensures OnePerVni(old(server.networks)) ==> OnePerVni(server.networks)
    ensures Named(old(server.networks)) ==> Named(server.networks)
    ensures rsp.Err? ==> server.networks == old(server.networks)
    ensures rsp.Ok? ==> |server.networks| == |old(server.networks)| + 1
    ensures rsp.Ok? && rsp.value.Some? ==> server.networks[|old(server.networks)|] == rsp.value.value
    ensures SeenFits(seen, server.networks, server.ready)
    ensures rsp.Ok? && rsp.value.Some? ==> && SeenFits(Noted(seen, rsp.value.value, vni), server.networks, server.ready)
                                           && HasId(server.networks, VnetName(vni))
                                           && (ReportsReady(rsp.value.value) ==> VnetName(vni) in server.ready)
    ensures server.healthy && SeenGood(seen, old(server.networks)) ==>
              && rsp.Ok? && rsp.value.Some? && ReportsReady(rsp.value.value)
              && SeenGood(Noted(seen, rsp.value.value, vni), server.networks) && HasVni(server.networks, vni)
  {
    ghost var before, wasReady := server.networks, server.ready;
    NamedApart(before, seen, vni);
    rsp := server.CreateNetwork(VnetName(vni), vni);
    if rsp.Ok? {
      ghost var n := server.networks[|before|];
      assert server.networks == before + [n];
      CreatedKeepsShape(before, seen, wasReady, n, vni);
      CreatedFits(before, seen, wasReady, n, vni, server.ready);
      CreatedGood(before, seen, n, vni);
      IdsStay(before, n, VnetName(vni));
    }
  }

  /** The status left by the network that was created: as it was, unless that one is not Ready. */
  function CreatedStatus(s: Status, n: Network): (r: Status)
    ensures r.entry == s.entry && r.vni == s.vni
    ensures if ReportsReady(n) then r == s else !IsReady(r)
    ensures !ReportsReady(n) ==> r.status.phase == AError || (n.state.Some? && r == WithState(s, n.state.value))
  {
    var state := OrMissing(n.state, "Response is missing state");
    if state.phase != Ready then WithState(s, state) else s
  }

  /** An entry whose VNI has not been seen: its network is created. */
  method CreateMissing(server: Server, seen: Seen, s: Status) returns (seen': Seen, s': Status)
    requires SeenFits(seen, server.networks, server.ready) && s.vni >= 1 && s.vni !in seen
    modifies server`networks, server`ready, server`log
    ensures s'.entry == s.entry && s'.vni == s.vni
    ensures SeenFits(seen', server.networks, server.ready)
    ensures old(server.networks) <= server.networks && old(server.ready) <= server.ready
    ensures OnlyAddsNetworks(old(server.log), server.log)
    ensures OnePerVni(old(server.networks)) ==> OnePerVni(server.networks)
    ensures Named(old(server.networks)) ==> Named(server.networks)
    ensures IsReady(s') ==> NetworkUsable(s', server.networks, server.ready)
    ensures server.networks == old(server.networks) ==> s'.status.phase == AError
    ensures server.networks != old(server.networks) ==>
              var n := server.networks[|server.networks| - 1];
              s' == s || s'.status.phase == AError || (n.state.Some? && s' == WithState(s, n.state.value))
    ensures server.healthy && SeenGood(seen, old(server.networks)) ==>
              s' == s && SeenGood(seen', server.networks) && HasVni(server.networks, s.vni)
  {
    var vni: nat := s.vni;
    var rsp := CreateNamed(server, seen, vni);
    if rsp.Err? {
      return seen, WithState(s, State(Failed, "API failure"));
    }
    if rsp.value.None? {
      return seen, WithState(s, State(Failed, "Response is missing virtual network"));
    }
    seen' := Noted(seen, rsp.value.value, vni);
    s' := CreatedStatus(s, rsp.value.value);
  }

  /** One turn of the loop over the entries. */
  method EnsureNetwork(server: Server, seen: Seen, s: Status) returns (seen': Seen, s': Status)
    requires SeenFits(seen, server.networks, server.ready) && s.vni >= 0
    modifies server`networks, server`ready, server`log
    ensures s'.entry == s.entry && s'.vni == s.vni
    ensures SeenFits(seen', server.networks, server.ready)
    ensures old(server.networks) <= server.networks && old(server.ready) <= server.ready
    ensures OnlyAddsNetworks(old(server.log), server.log)
    ensures OnePerVni(old(server.networks)) ==> OnePerVni(server.networks)
    ensures Named(old(server.networks)) ==> Named(server.networks)
    ensures s.vni != 0 && IsReady(s') ==> NetworkUsable(s', server.networks, server.ready)
    ensures s.vni == 0 ==> s' == s
    ensures s.vni != 0 && s.vni in seen ==>
              var (id, state) := seen[s.vni];
              if id != Some(VnetName(s.vni)) then s'.status.phase == AError
              else s' == if state.phase == Ready then s else WithState(s, state)
    ensures server.healthy && SeenGood(seen, old(server.networks)) ==>
              s' == s && SeenGood(seen', server.networks) && (s.vni != 0 ==> HasVni(server.networks, s.vni))
    ensures s.vni == 0 || s.vni in seen ==>
              seen' == seen && server.networks == old(server.networks) && server.log == old(server.log)
  {
    seen', s' := seen, s;
    if s.vni == 0 {
      return;
    }
    if s.vni in seen {
      s' := SeenStatus(s, seen[s.vni].0, seen[s.vni].1);
      return;
    }
    seen', s' := CreateMissing(server, seen, s);
  }

  // ---- What a listing that only drifts in phases keeps

  lemma SameNetworksKeepShape(a: seq<Network>, b: seq<Network>)
    requires SameNetworks(a, b)
    ensures OnePerVni(a) ==> OnePerVni(b)
    ensures Named(a) ==> Named(b)
  {
    if Named(a) {
      forall n | n in b
        ensures n.vni.Some? && n.vni.value >= 1 && n.id == Some(VnetName(n.vni.value))
      {
        var i :| 0 <= i < |b| && b[i] == n;
        assert a[i] in a;
      }
    }
  }

  lemma UsableStays(s: Status, networks: seq<Network>, ready: set<string>, networks': seq<Network>, ready': set<string>)
    requires NetworkUsable(s, networks, ready) && networks <= networks' && ready <= ready'
    ensures NetworkUsable(s, networks', ready')
  {
    var n :| n in networks && n.id == Some(VnetName(s.vni));
    assert n in networks';
  }

  lemma ReadyStaysUsable(done: seq<Status>, s: Status, networks: seq<Network>, ready: set<string>,
                         networks': seq<Network>, ready': set<string>)
    requires ReadyMeansUsable(done, networks, ready) && networks <= networks' && ready <= ready'
    requires s.vni != 0 && IsReady(s) ==> NetworkUsable(s, networks', ready')
    ensures ReadyMeansUsable(done + [s], networks', ready')
  {
    forall t | t in done + [s] && t.vni != 0 && IsReady(t)
      ensures NetworkUsable(t, networks', ready')
    {
      if t in done {
        UsableStays(t, networks, ready, networks', ready');
      }
    }
  }

  /** Every entry's VNI has a network, unless it is the detached one. */
  predicate VnisPresent(entries: seq<Status>, networks: seq<Network>) {
    forall s | s in entries && s.vni != 0 :: HasVni(networks, s.vni)
  }

  lemma VnisStay(done: seq<Status>, s: Status, networks: seq<Network>, networks': seq<Network>)
    requires networks <= networks'
    ensures VnisPresent(done, networks) && (s.vni != 0 ==> HasVni(networks', s.vni)) ==>
              VnisPresent(done + [s], networks')
  {
    forall t | t in done && HasVni(networks, t.vni)
      ensures HasVni(networks', t.vni)
    {
      var n :| n in networks && n.vni.Some? && n.vni.value == t.vni;
      assert n in networks';
    }
  }

  /** The orderly case, with a network for every entry done. */
  ghost predicate GoodSoFar(seen: Seen, entries: seq<Status>, done: seq<Status>, networks: seq<Network>) {
    SeenGood(seen, networks) && done <= entries && VnisPresent(done, networks)
  }

  lemma GoodStep(seen: Seen, seen': Seen, entries: seq<Status>, done: seq<Status>, s: Status, networks: seq<Network>,
                 networks': seq<Network>)
    requires networks <= networks' && |done| < |entries|
    requires s.vni != 0 ==> HasVni(networks', s.vni)
    ensures GoodSoFar(seen, entries, done, networks) && SeenGood(seen', networks') && s == entries[|done|] ==>
              GoodSoFar(seen', entries, done + [s], networks')
  {
    VnisStay(done, s, networks, networks');
  }

  lemma FollowsStep(entries: seq<Status>, done: seq<Status>, s: Status)
    requires |done| < |entries| && Follows(entries, done)
    requires s.entry == entries[|done|].entry && s.vni == entries[|done|].vni
    ensures Follows(entries, done + [s])
  {
  }

  lemma OnlyAddsTransitive(a: seq<Call>, b: seq<Call>, c: seq<Call>)
    requires OnlyAddsNetworks(a, b) && OnlyAddsNetworks(b, c)
    ensures OnlyAddsNetworks(a, c)
  {
  }

  /** The first entries are done, and the Ready ones among them have usable networks. */
  ghost predicate Ensured(entries: seq<Status>, done: seq<Status>, seen: Seen, networks: seq<Network>,
                          ready: set<string>) {
    Follows(entries, done) && SeenFits(seen, networks, ready) && ReadyMeansUsable(done, networks, ready)
  }

  lemma EnsuredStep(entries: seq<Status>, done: seq<Status>, s: Status, seen: Seen, networks: seq<Network>,
                    ready: set<string>,
                    seen': Seen, networks': seq<Network>, ready': set<string>)
    requires |done| < |entries| && Ensured(entries, done, seen, networks, ready) && networks <= networks'
    requires ready <= ready'
    requires s.entry == entries[|done|].entry && s.vni == entries[|done|].vni
    requires (s.vni != 0 && IsReady(s) ==> NetworkUsable(s, networks', ready')) && SeenFits(seen', networks', ready')
    ensures Ensured(entries, done + [s], seen', networks', ready')
  {
    ReadyStaysUsable(done, s, networks, ready, networks', ready');
    FollowsStep(entries, done, s);
  }

  /** The networks have only grown, and in keeping with their shape. */
  predicate Grown(before: seq<Network>, networks: seq<Network>) {
    before <= networks && (OnePerVni(before) ==> OnePerVni(networks)) && (Named(before) ==> Named(networks))
  }

  method EnsureAll(server: Server, listed: Seen, entries: seq<Status>) returns (r: Result<seq<Status>, string>)
    requires Built(entries) && SeenFits(listed, server.networks, server.ready)
    modifies server`networks, server`ready, server`log
    ensures OnlyAddsNetworks(old(server.log), server.log)
    ensures Grown(old(server.networks), server.networks)
    ensures r.Ok? && SameEntries(entries, r.value) && ReadyMeansUsable(r.value, server.networks, server.ready)
    ensures server.healthy && SeenGood(listed, old(server.networks)) ==>
              r == Ok(entries) && AllReady(server.networks) && VnisPresent(entries, server.networks)
    ensures (forall s | s in entries && s.vni != 0 :: s.vni in listed) ==>
              server.networks == old(server.networks) && server.log == old(server.log)
  {
    ghost var before := server.networks;
    ghost var good := server.healthy && SeenGood(listed, before);
    ghost var full := forall s | s in entries && s.vni != 0 :: s.vni in listed;
    var seen := listed;
    var done: seq<Status> := [];
    for i := 0 to |entries|
      invariant |done| == i && Ensured(entries, done, seen, server.networks, server.ready)
      invariant OnlyAddsNetworks(old(server.log), server.log) && Grown(before, server.networks)
      invariant good ==> GoodSoFar(seen, entries, done, server.networks)
      invariant full ==> seen == listed && server.networks == before && server.log == old(server.log)
    {
      ghost var networks, ready, log, was := server.networks, server.ready, server.log, seen;
      var s: Status;
      seen, s := EnsureNetwork(server, seen, entries[i]);
      EnsuredStep(entries, done, s, was, networks, ready, seen, server.networks, server.ready);
      if good {
        GoodStep(was, seen, entries, done, s, networks, server.networks);
      }
      OnlyAddsTransitive(old(server.log), log, server.log);
      done := done + [s];
    }
    assert done <= entries ==> done == entries;
    r := Ok(done);
  }

  /**
   Phase 1. It only adds networks, keeps at most one per VNI, and leaves an entry Ready only
   if its network is there and was reported Ready; a healthy server with orderly, Ready
   networks ends up with one for every entry, and is not called when nothing is missing.
   */
  ghost predicate PhaseOne(healthy: bool, a: View, b: View, entries: seq<Status>, r: Result<seq<Status>, string>) {
    && b.attachments == a.attachments
    && OnlyAddsNetworks(a.log, b.log)
    && (OnePerVni(a.networks) ==> OnePerVni(b.networks))
    && (Named(a.networks) ==> Named(b.networks))
    && (r.Ok? ==> SameEntries(entries, r.value) && ReadyMeansUsable(r.value, b.networks, b.ready))
    && (healthy && Named(a.networks) && AllReady(a.networks) ==>
          r == Ok(entries) && AllReady(b.networks) && VnisPresent(entries, b.networks))
    && (healthy ==> a.networks <= b.networks)
    && (healthy && VnisPresent(entries, a.networks) ==> b.networks == a.networks && b.log == a.log)
  }

  method CreateVirtualNetworks(server: Server, entries: seq<Status>) returns (r: Result<seq<Status>, string>)
    requires Built(entries)
    modifies server`networks, server`ready, server`log
    ensures PhaseOne(server.healthy, old(server.Now()), server.Now(), entries, r)
  {
    var listed := server.ListNetworks();
    SameNetworksKeepShape(old(server.networks), server.networks);
    if listed.Err? {
      return Err(listed.error);
    }
    var seen := CollectFitting(listed.value);
    r := EnsureAll(server, seen, entries);
  }

  // ---- Phase 3

  predicate AllWanted(attachments: seq<Attachment>, entries: seq<Status>) {
    forall a | a in attachments :: Wanted(a, entries)
  }

  predicate AllInConfig(networks: seq<Network>, entries: seq<Status>) {
    forall n | n in networks :: InConfig(n, entries)
  }

  predicate NoneOn(attachments: seq<Attachment>, id: string) {
    forall a | a in attachments && a.spec.Some? :: a.spec.value.vnetId != id
  }

  /** `log` continues `before` with deletes of networks. */
  predicate OnlyDropsNetworks(before: seq<Call>, log: seq<Call>) {
    before <= log && forall i | |before| <= i < |log| :: log[i].action.DropNetwork?
  }

  /** The deleted networks are ones that nothing is attached to. */
  predicate OnlyDropsUnused(before: seq<Call>, log: seq<Call>) {
    OnlyDropsNetworks(before, log) && forall i | |before| <= i < |log| :: NoneOn(log[i].attachments, log[i].action.id)
  }

  /** A wanted attachment is on a network of the config, so none is on a network outside it. */
  lemma StaleIsUnused(n: Network, attachments: seq<Attachment>, entries: seq<Status>)
    requires AllWanted(attachments, entries) && Built(entries)
    requires n.vni.Some? && n.vni.value >= 1 && n.id == Some(VnetName(n.vni.value)) && !InConfig(n, entries)
    ensures NoneOn(attachments, n.id.value)
  {
    forall a | a in attachments && a.spec.Some?
      ensures a.spec.value.vnetId != n.id.value
    {
      var s :| s in entries && HasKey(a, s.entry.mac, VnetName(s.vni));
      VnetNameInjective(s.vni, n.vni.value);
    }
  }

  lemma {:induction false} WithoutKeepsOnePerVni(networks: seq<Network>, id: string)
    requires OnePerVni(networks)
    ensures OnePerVni(WithoutNetwork(networks, id))
  {
    if networks != [] {
      var rest := networks[1..];
      WithoutKeepsOnePerVni(rest, id);
      var kept := WithoutNetwork(rest, id);
      forall k | 0 <= k < |kept|
        ensures networks[0].vni.Some? ==> kept[k].vni != networks[0].vni
      {
        assert kept[k] in rest;
      }
    }
  }

  /** Of `listed`, the networks of the config are left, and those outside it that come after `i`. */
  predicate Sifted(listed: seq<Network>, i: nat, networks: seq<Network>, entries: seq<Status>) {
    && i <= |listed|
    && (forall n | n in networks :: n in listed)
    && (forall n | n in listed && InConfig(n, entries) :: n in networks)
    && (forall j | 0 <= j < i :: InConfig(listed[j], entries) || listed[j] !in networks)
  }

  /** Networks named after their VNIs that agree in name agree on being in the config. */
  lemma NamesDecide(m: Network, n: Network, entries: seq<Status>)
    requires m.vni.Some? && m.id == Some(VnetName(m.vni.value)) && n.vni.Some? && n.id == Some(VnetName(n.vni.value))
    ensures m.id == n.id ==> (InConfig(m, entries) <==> InConfig(n, entries))
  {
    VnetNameInjective(m.vni.value, n.vni.value);
  }

  lemma SiftedStep(listed: seq<Network>, i: nat, networks: seq<Network>, entries: seq<Status>, id: string)
    requires Sifted(listed, i, networks, entries) && Named(listed)
    requires i < |listed| && listed[i].id == Some(id) && !InConfig(listed[i], entries)
    ensures Sifted(listed, i + 1, WithoutNetwork(networks, id), entries)
  {
    var after := WithoutNetwork(networks, id);
    forall n | n in listed && InConfig(n, entries)
      ensures n in after
    {
      NamesDecide(n, listed[i], entries);
    }
    forall j | 0 <= j < i + 1 && !InConfig(listed[j], entries)
      ensures listed[j] !in after
    {
    }
  }

  lemma DropsStep(before: seq<Call>, log: seq<Call>, c: Call)
    requires OnlyDropsUnused(before, log) && c.action.DropNetwork? && NoneOn(c.attachments, c.action.id)
    ensures OnlyDropsUnused(before, log + [c])
  {
  }

  /** Where network deletes fail, nothing changes, and the first delete ends the phase. */
  predicate StaleKept(before: seq<Network>, log: seq<Call>, networks: seq<Network>, log': seq<Call>,
                      r: Result<(), string>) {
    networks == before && |log'| == |log| + (if r.Ok? then 0 else 1)
  }

  /** One turn of the loop over the listed networks. */
  method DropIfStale(server: Server, listed: seq<Network>, i: nat, entries: seq<Status>, ghost before: seq<Call>,
                     ghost safe: bool)
    returns (r: Result<(), string>)
    requires Built(entries) && i < |listed|
    requires safe ==> Named(listed) && AllWanted(server.attachments, entries) && OnlyDropsUnused(before, server.log)
    modifies server`networks, server`log
    ensures OnlyDropsNetworks(before, old(server.log)) ==> OnlyDropsNetworks(before, server.log)
    ensures safe ==> OnlyDropsUnused(before, server.log)
    ensures OnePerVni(old(server.networks)) ==> OnePerVni(server.networks)
    ensures forall n | n in server.networks :: n in old(server.networks)
    ensures server.healthy && server.drops ==> r.Ok?
    ensures r.Ok? && Named(listed) && Sifted(listed, i, old(server.networks), entries) ==>
              Sifted(listed, i + 1, server.networks, entries)
    ensures InConfig(listed[i], entries) ==>
              r.Ok? && server.networks == old(server.networks) && server.log == old(server.log)
    ensures !server.drops ==> StaleKept(old(server.networks), old(server.log), server.networks, server.log, r)
    ensures !server.drops && Named(listed) && !InConfig(listed[i], entries) ==> r.Err?
  {
    var n := listed[i];
    var id := UsableId(n.id);
    r := Ok(());
    if !InConfig(n, entries) && id.Some? {
      ghost var networks, log := server.networks, server.log;
      r := server.DeleteNetwork(id.value);
      if safe {
        StaleIsUnused(n, server.attachments, entries);
        DropsStep(before, log, server.log[|log|]);
      }
      if OnePerVni(networks) {
        WithoutKeepsOnePerVni(networks, id.value);
      }
      if r.Ok? && Named(listed) && Sifted(listed, i, networks, entries) {
        SiftedStep(listed, i, networks, entries, id.value);
      }
    }
  }

  /** What the loop over the listed networks leaves behind. */
  ghost predicate Trimmed(healthy: bool, drops: bool, a: View, b: View, entries: seq<Status>, r: Result<(), string>) {
    && b.attachments == a.attachments && OnlyDropsNetworks(a.log, b.log)
    && (OnePerVni(a.networks) ==> OnePerVni(b.networks)) && (Named(a.networks) ==> Named(b.networks))
    && (Named(a.networks) && AllWanted(a.attachments, entries) ==> OnlyDropsUnused(a.log, b.log))
    && (healthy && drops ==> r.Ok?)
    && (r.Ok? && Named(a.networks) ==> Sifted(a.networks, |a.networks|, b.networks, entries))
    && (AllInConfig(a.networks, entries) ==> r.Ok? && b.networks == a.networks && b.log == a.log)
    && (!drops ==> StaleKept(a.networks, a.log, b.networks, b.log, r))
    && (!drops && Named(a.networks) && r.Ok? ==> AllInConfig(a.networks, entries))
  }

  method DropAllStale(server: Server, listed: seq<Network>, entries: seq<Status>) returns (r: Result<(), string>)
    requires Built(entries) && server.networks == listed
    modifies server`networks, server`log
    ensures Trimmed(server.healthy, server.drops, old(server.Now()), server.Now(), entries, r)
  {
    ghost var safe := Named(listed) && AllWanted(server.attachments, entries);
    ghost var sound, named := OnePerVni(listed), Named(listed);
    ghost var current := AllInConfig(listed, entries);
    for i := 0 to |listed|
      invariant sound ==> OnePerVni(server.networks)
      invariant forall n | n in server.networks :: n in listed
      invariant OnlyDropsNetworks(old(server.log), server.log)
      invariant safe ==> OnlyDropsUnused(old(server.log), server.log)
      invariant named ==> Sifted(listed, i, server.networks, entries)
      invariant current ==> server.networks == listed && server.log == old(server.log)
      invariant !server.drops ==> StaleKept(listed, old(server.log), server.networks, server.log, Ok(()))
      invariant !server.drops && named ==> forall j | 0 <= j < i :: InConfig(listed[j], entries)
    {
      r := DropIfStale(server, listed, i, entries, old(server.log), safe);
      if r.Err? {
        return;
      }
    }
    r := Ok(());
  }

  /**
   Phase 3. With orderly names, and nothing but wanted attachments left, it deletes no network
   that is in use; a finished phase leaves exactly the networks of the config, and a failed
   delete leaves everything else as it is.
   */
  ghost predicate PhaseThree(healthy: bool, drops: bool, a: View, b: View, entries: seq<Status>,
                             r: Result<(), string>) {
    && b.attachments == a.attachments
    && OnlyDropsNetworks(a.log, b.log)
    && (OnePerVni(a.networks) ==> OnePerVni(b.networks))
    && (Named(a.networks) ==> Named(b.networks))
    && (Named(a.networks) && AllWanted(a.attachments, entries) ==> OnlyDropsUnused(a.log, b.log))
    && (healthy && drops ==> r.Ok?)
    && (healthy && r.Ok? && Named(a.networks) ==> Sifted(a.networks, |a.networks|, b.networks, entries))
    && (healthy && AllInConfig(a.networks, entries) ==> r.Ok? && b.networks == a.networks && b.log == a.log)
    && (healthy && !drops ==> StaleKept(a.networks, a.log, b.networks, b.log, r))
    && (healthy && !drops && Named(a.networks) && r.Ok? ==> AllInConfig(a.networks, entries))
  }

  lemma TrimmedIsPhaseThree(healthy: bool, drops: bool, a: View, m: View, b: View, entries: seq<Status>,
                            r: Result<(), string>)
    requires SameNetworks(a.networks, m.networks) && m.attachments == a.attachments && m.log == a.log
    requires healthy ==> m.networks == a.networks
    requires Trimmed(healthy, drops, m, b, entries, r)
    ensures PhaseThree(healthy, drops, a, b, entries, r)
  {
    SameNetworksKeepShape(a.networks, m.networks);
  }

  method DeleteStaleNetworks(server: Server, entries: seq<Status>) returns (r: Result<(), string>)
    requires Built(entries)
    modifies server`networks, server`ready, server`log
    ensures PhaseThree(server.healthy, server.drops, old(server.Now()), server.Now(), entries, r)
  {
    var rsp := server.ListNetworks();
    SameNetworksKeepShape(old(server.networks), server.networks);
    if rsp.Err? {
      return Err(rsp.error);
    }
    ghost var a, m := old(server.Now()), server.Now();
    r := DropAllStale(server, rsp.value, entries);
    TrimmedIsPhaseThree(server.healthy, server.drops, a, m, server.Now(), entries, r);
  }
}
