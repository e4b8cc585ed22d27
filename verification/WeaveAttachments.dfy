/**
 The second phase of a reconcile: attach every Ready entry, replacing attachments of its NIC
 to other networks, and then delete the attachments that no entry wants.
 */
module WeaveAttachments {
  import opened Wrappers
  import opened WeaveModel
  import opened WeaveServer
  import opened WeaveNetworks

  // ---- What is said about attachments and entries

  predicate DistinctMacs(entries: seq<Status>) {
    forall i, j | 0 <= i < j < |entries| :: entries[i].entry.mac != entries[j].entry.mac
  }

  predicate UniqueIds(attachments: seq<Attachment>) {
    && (forall a | a in attachments :: a.id.Some? && a.id.value != "")
    && (forall i, j | 0 <= i < j < |attachments| :: attachments[i].id != attachments[j].id)
  }

  predicate Held(s: Status, attachments: seq<Attachment>) {
    exists a | a in attachments :: HasKey(a, s.entry.mac, VnetName(s.vni))
  }

  predicate Conflicts(a: Attachment, s: Status) {
    a.spec.Some? && a.spec.value.nicId == s.entry.mac && a.spec.value.vnetId != VnetName(s.vni)
  }

  predicate HasVnet(a: Attachment, vnet: string) {
    a.spec.Some? && a.spec.value.vnetId == vnet
  }

  function StateOf(a: Attachment): State {
    OrMissing(a.state, "Missing Doca Weave Server Status State")
  }

  /** The new status of an entry is the state of its attachment; a detached entry keeps its own. */
  predicate Copied(s: Status, s': Status, attachments: seq<Attachment>) {
    if s.vni == 0 then s' == s
    else exists a | a in attachments :: HasKey(a, s.entry.mac, VnetName(s.vni)) && s' == WithState(s, StateOf(a))
  }

  predicate CanAttach(s: Status) {
    IsReady(s) && (s.vni == 0 || Attachable(s.entry))
  }

  predicate NoConflict(s: Status, attachments: seq<Attachment>) {
    forall a | a in attachments :: !Conflicts(a, s)
  }

  predicate AttachmentsReady(attachments: seq<Attachment>) {
    forall a | a in attachments :: a.state.Some? && a.state.value.phase == Ready
  }

  lemma SameMacSameEntry(entries: seq<Status>, s: Status, t: Status)
    requires DistinctMacs(entries) && s in entries && t in entries && s.entry.mac == t.entry.mac
    ensures s == t
  {
  }

  lemma ConflictingIsUnwanted(a: Attachment, s: Status, entries: seq<Status>)
    requires DistinctMacs(entries) && s in entries && Conflicts(a, s)
    ensures !Wanted(a, entries)
  {
    forall t | t in entries
      ensures !HasKey(a, t.entry.mac, VnetName(t.vni))
    {
      if t.entry.mac == s.entry.mac {
        SameMacSameEntry(entries, s, t);
      }
    }
  }

  lemma SameIdSameAttachment(attachments: seq<Attachment>, a: Attachment, b: Attachment)
    requires UniqueIds(attachments) && a in attachments && b in attachments && a.id == b.id
    ensures a == b
  {
  }

  // ---- What a phase has done so far

  /** The listing the phase works from, the ids used by then, and the entries. */
  datatype Context = Context(listed: seq<Attachment>, used: seq<string>, entries: seq<Status>)

  ghost predicate Tidy(c: Context) {
    DistinctMacs(c.entries) && UniqueIds(c.listed)
  }

  predicate Gone(a: Attachment, deleted: set<string>) {
    a.id.Some? && a.id.value in deleted
  }

  predicate OnNic(a: Attachment, mac: string) {
    a.spec.Some? && a.spec.value.nicId == mac
  }

  /** Nothing listed on that NIC has been deleted yet. */
  predicate NicUntouched(c: Context, deleted: set<string>, mac: string) {
    forall a | a in c.listed && OnNic(a, mac) :: !Gone(a, deleted)
  }

  /** What has been deleted since was on that NIC. */
  predicate OnlyOnNic(c: Context, deleted: set<string>, deleted': set<string>, mac: string) {
    forall a | a in c.listed && Gone(a, deleted') && !Gone(a, deleted) :: OnNic(a, mac)
  }

  /** The id of a listed attachment; in the tidy case, of one no entry wants. */
  ghost predicate MayDrop(c: Context, id: string) {
    exists a | a in c.listed :: a.id == Some(id) && (Tidy(c) ==> !Wanted(a, c.entries))
  }

  /** The server has what was listed without what was deleted, and what was created. */
  ghost predicate Tracks(c: Context, deleted: set<string>, created: seq<Attachment>, attachments: seq<Attachment>) {
    forall a :: a in attachments <==> (a in c.listed && !Gone(a, deleted)) || a in created
  }

  ghost predicate CreatedFor(c: Context, created: seq<Attachment>) {
    forall a | a in created :: a.id.Some? && a.id.value !in c.used && Wanted(a, c.entries) && !HasVnet(a, VnetName(0))
  }

  ghost predicate Progress(c: Context, deleted: set<string>, created: seq<Attachment>, attachments: seq<Attachment>,
                           used: seq<string>) {
    && IdsUsed(c.listed, c.used) && c.used <= used
    && Tracks(c, deleted, created, attachments)
    && CreatedFor(c, created)
    && (forall id | id in deleted :: MayDrop(c, id))
    && (UniqueIds(c.listed) ==> UniqueIds(attachments))
  }

  lemma {:induction false} WithoutKeepsUniqueIds(attachments: seq<Attachment>, id: string)
    requires UniqueIds(attachments)
    ensures UniqueIds(WithoutAttachment(attachments, id))
  {
    if attachments != [] {
      var rest := attachments[1..];
      WithoutKeepsUniqueIds(rest, id);
      var kept := WithoutAttachment(rest, id);
      forall k | 0 <= k < |kept|
        ensures kept[k].id != attachments[0].id
      {
        assert kept[k] in rest;
      }
    }
  }

  lemma NewIdIsUnique(attachments: seq<Attachment>, used: seq<string>, a: Attachment)
    requires UniqueIds(attachments) && IdsUsed(attachments, used) && a.id.Some? && a.id.value != ""
    requires a.id.value !in used
    ensures UniqueIds(attachments + [a])
  {
    forall i | 0 <= i < |attachments|
      ensures attachments[i].id != a.id
    {
      assert attachments[i] in attachments;
    }
  }

  lemma DropProgress(c: Context, deleted: set<string>, created: seq<Attachment>, attachments: seq<Attachment>,
                     used: seq<string>, id: string)
    requires Progress(c, deleted, created, attachments, used) && MayDrop(c, id)
    ensures Progress(c, deleted + {id}, created, WithoutAttachment(attachments, id), used)
  {
    assert id in c.used;
    if UniqueIds(attachments) {
      WithoutKeepsUniqueIds(attachments, id);
    }
  }

  lemma CreateProgress(c: Context, deleted: set<string>, created: seq<Attachment>, attachments: seq<Attachment>,
                       used: seq<string>,
                       a: Attachment, used': seq<string>)
    requires Progress(c, deleted, created, attachments, used) && used <= used'
    requires IdsUsed(attachments, used) && a.id.Some? && a.id.value != "" && a.id.value !in used
    requires Wanted(a, c.entries) && !HasVnet(a, VnetName(0))
    ensures Progress(c, deleted, created + [a], attachments + [a], used')
  {
    if UniqueIds(attachments) {
      NewIdIsUnique(attachments, used, a);
    }
  }

  /** An attachment created for the entry, with its revision and function; a healthy server makes it Ready. */
  predicate MadeFor(healthy: bool, s: Status, a: Attachment) {
    && s.vni != 0 && HasKey(a, s.entry.mac, VnetName(s.vni)) && a.revision == Some(s.entry.revision)
    && Carries(a.spec.value, s.entry)
    && (healthy ==> a.state == Some(State(Ready, "")))
  }

  /** At most one attachment was created, for that entry. */
  ghost predicate AddsFor(healthy: bool, s: Status, created: seq<Attachment>, created': seq<Attachment>) {
    created' == created || (|created'| == |created| + 1 && created <= created'
                            && MadeFor(healthy, s, created'[|created|]))
  }

  /** In the tidy case, what carries a droppable id is there and not wanted. */
  lemma DroppedIsStale(c: Context, deleted: set<string>, created: seq<Attachment>, attachments: seq<Attachment>,
                       used: seq<string>, id: string)
    requires Progress(c, deleted, created, attachments, used) && MayDrop(c, id) && Tidy(c) && id !in deleted
    ensures DropsStale(attachments, id, c.entries)
  {
    var b :| b in c.listed && b.id == Some(id) && !Wanted(b, c.entries);
    assert b in attachments;
    forall a | a in attachments && a.id == Some(id)
      ensures !Wanted(a, c.entries)
    {
      assert id in c.used;
      SameIdSameAttachment(c.listed, a, b);
    }
  }

  /** In the tidy case, a wanted listed attachment is still there. */
  lemma WantedStays(c: Context, deleted: set<string>, created: seq<Attachment>, attachments: seq<Attachment>,
                    used: seq<string>, a: Attachment)
    requires Progress(c, deleted, created, attachments, used) && Tidy(c) && a in c.listed && Wanted(a, c.entries)
    ensures a in attachments
  {
  }

  // ---- The calls of the phase

  /** Attachments are created only on a network that is there and was reported Ready. */
  ghost predicate AttachesSafely(before: seq<Call>, log: seq<Call>) {
    && before <= log
    && forall i | |before| <= i < |log| ::
         || log[i].action.DropAttachment?
         || (log[i].action.AddAttachment? && HasId(log[i].networks, log[i].action.spec.vnetId)
             && log[i].action.spec.vnetId in log[i].ready)
  }

  /** The id is that of an attachment that is there, and that no entry wants. */
  ghost predicate DropsStale(attachments: seq<Attachment>, id: string, entries: seq<Status>) {
    && (exists a | a in attachments :: a.id == Some(id))
    && (forall a | a in attachments && a.id == Some(id) :: !Wanted(a, entries))
  }

  /** Only such attachments are deleted; so none twice. */
  ghost predicate KeepsWanted(before: seq<Call>, log: seq<Call>, entries: seq<Status>) {
    && before <= log
    && forall i | |before| <= i < |log| && log[i].action.DropAttachment? ::
         DropsStale(log[i].attachments, log[i].action.id, entries)
  }

  lemma SafeTransitive(a: seq<Call>, b: seq<Call>, c: seq<Call>, entries: seq<Status>)
    requires a <= b <= c
    ensures AttachesSafely(a, b) && AttachesSafely(b, c) ==> AttachesSafely(a, c)
    ensures KeepsWanted(a, b, entries) && KeepsWanted(b, c, entries) ==> KeepsWanted(a, c, entries)
  {
  }

  method DropTracked(server: Server, id: string, ghost deleted: set<string>, ghost c: Context,
                     ghost created: seq<Attachment>)
    returns (r: Result<(), string>)
    requires server.Valid() && Progress(c, deleted, created, server.attachments, server.used) && MayDrop(c, id)
    requires Tidy(c) ==> id !in deleted
    modifies server`attachments, server`log
    ensures server.Valid()
    ensures Progress(c, if r.Ok? then deleted + {id} else deleted, created, server.attachments, server.used)
    ensures AttachesSafely(old(server.log), server.log)
    ensures Tidy(c) ==> KeepsWanted(old(server.log), server.log, c.entries)
    ensures server.healthy ==> r.Ok?
  {
    if Tidy(c) {
      DroppedIsStale(c, deleted, created, server.attachments, server.used, id);
    }
    DropProgress(c, deleted, created, server.attachments, server.used, id);
    r := server.DeleteAttachment(id);
  }

  /** The create call for an entry's spec, and what it keeps. */
  method CallCreate(server: Server, s: Status, spec: Spec, ghost deleted: set<string>, ghost c: Context,
                    ghost created: seq<Attachment>)
    returns (rsp: Result<Option<State>, string>, ghost created': seq<Attachment>)
    requires server.Valid() && Progress(c, deleted, created, server.attachments, server.used)
    requires s in c.entries && s.vni != 0 && NetworkUsable(s, server.networks, server.ready)
    requires spec.nicId == s.entry.mac && spec.vnetId == VnetName(s.vni) && Carries(spec, s.entry)
    modifies server`attachments, server`used, server`log
    ensures server.Valid()
    ensures AddsFor(server.healthy, s, created, created')
    ensures Progress(c, deleted, created', server.attachments, server.used)
    ensures AttachesSafely(old(server.log), server.log)
    ensures KeepsWanted(old(server.log), server.log, c.entries)
    ensures rsp.Ok? ==> Held(s, created') && server.attachments != old(server.attachments)
    ensures server.healthy ==> rsp == Ok(Some(State(Ready, "")))
  {
    ghost var before, used := server.attachments, server.used;
    created' := created;
    rsp := server.CreateAttachment(s.entry.revision, spec);
    if rsp.Ok? {
      ghost var a := server.attachments[|before|];
      assert server.attachments == before + [a] && HasKey(a, s.entry.mac, VnetName(s.vni));
      VnetNameInjective(s.vni, 0);
      CreateProgress(c, deleted, created, before, used, a, server.used);
      created' := created + [a];
      assert a in created';
    }
  }

  method CreateTracked(server: Server, s: Status, ghost deleted: set<string>, ghost c: Context,
                       ghost created: seq<Attachment>)
    returns (s': Status, ghost created': seq<Attachment>)
    requires server.Valid() && Progress(c, deleted, created, server.attachments, server.used)
    requires s in c.entries && s.vni != 0 && NetworkUsable(s, server.networks, server.ready)
    modifies server`attachments, server`used, server`log
    ensures server.Valid()
    ensures AddsFor(server.healthy, s, created, created')
    ensures Progress(c, deleted, created', server.attachments, server.used)
    ensures AttachesSafely(old(server.log), server.log)
    ensures KeepsWanted(old(server.log), server.log, c.entries)
    ensures s'.entry == s.entry && s'.vni == s.vni
    ensures IsReady(s') ==> s' == s && Held(s, created')
    ensures server.healthy && Attachable(s.entry) ==> s' == s && Held(s, created')
    ensures !Attachable(s.entry) ==> s'.status.phase == AError && server.log == old(server.log)
    ensures server.attachments == old(server.attachments) ==> s'.status.phase == AError
  {
    BuildSpecIff(s);
    var spec := BuildSpec(s);
    if spec.Err? {
      return WithState(s, spec.error), created;
    }
    var rsp: Result<Option<State>, string>;
    rsp, created' := CallCreate(server, s, spec.value, deleted, c, created);
    var state := if rsp.Ok? then OrMissing(rsp.value, "Missing Doca Weave Server Status State")
      else State(Failed, "API Failed");
    s' := if state.phase != Ready then WithState(s, state) else s;
  }

  lemma UniqueIdsMore(listed: seq<Attachment>, i: nat, some: seq<Attachment>)
    requires i < |listed| && forall a | a in some :: a in listed[..i]
    ensures UniqueIds(listed) && UniqueIds(some) ==> UniqueIds(some + [listed[i]])
  {
    if UniqueIds(listed) {
      forall k | 0 <= k < |some|
        ensures some[k].id != listed[i].id
      {
        assert some[k] in listed[..i];
      }
    }
  }

  /** The listed attachments of the entry's NIC: the last one on its own network, and those on others. */
  method SplitSameNic(listed: seq<Attachment>, s: Status)
    returns (exact: Option<Attachment>, conflicting: seq<Attachment>)
    ensures exact.Some? ==> exists i | 0 <= i < |listed| :: listed[i] == exact.value && LastWithKey(listed, i, s)
    ensures exact.Some? <==> Held(s, listed)
    ensures forall a :: a in conflicting <==> a in listed && Conflicts(a, s)
    ensures conflicting == [] <==> NoConflict(s, listed)
    ensures UniqueIds(listed) ==> UniqueIds(conflicting)
  {
    exact, conflicting := None, [];
    ghost var last := 0;
    for i := 0 to |listed|
      invariant exact.Some? ==> 0 <= last < i && listed[last] == exact.value && LastWithKey(listed[..i], last, s)
      invariant exact.None? ==> !Held(s, listed[..i])
      invariant forall a :: a in conflicting <==> a in listed[..i] && Conflicts(a, s)
      invariant UniqueIds(listed) ==> UniqueIds(conflicting)
    {
      var a := listed[i];
      assert listed[..i + 1] == listed[..i] + [a];
      UniqueIdsMore(listed, i, conflicting);
      if HasKey(a, s.entry.mac, VnetName(s.vni)) {
        exact, last := Some(a), i;
      } else if Conflicts(a, s) {
        conflicting := conflicting + [a];
      }
    }
    assert listed[..|listed|] == listed;
    assert conflicting != [] ==> conflicting[0] in conflicting;
  }

  predicate LastWithKey(listed: seq<Attachment>, i: nat, s: Status)
    requires i < |listed|
  {
    && HasKey(listed[i], s.entry.mac, VnetName(s.vni))
    && forall j | i < j < |listed| :: !HasKey(listed[j], s.entry.mac, VnetName(s.vni))
  }

  lemma ConflictMayDrop(c: Context, a: Attachment, s: Status)
    requires a in c.listed && a.id.Some? && s in c.entries && Conflicts(a, s)
    ensures MayDrop(c, a.id.value)
  {
    if Tidy(c) {
      ConflictingIsUnwanted(a, s, c.entries);
    }
  }

  predicate NoneGone(attachments: seq<Attachment>, deleted: set<string>) {
    forall a | a in attachments :: !Gone(a, deleted)
  }

  lemma DropOnNic(c: Context, before: set<string>, deleted: set<string>, conflicting: seq<Attachment>, i: nat,
                  s: Status)
    requires Tidy(c) && UniqueIds(conflicting) && (forall a | a in conflicting :: a in c.listed && Conflicts(a, s))
    requires i < |conflicting| && OnlyOnNic(c, before, deleted, s.entry.mac) && NoneGone(conflicting[i..], deleted)
    ensures NoneGone(conflicting[i + 1..], deleted)
    ensures conflicting[i].id.Some? ==>
              var deleted' := deleted + {conflicting[i].id.value};
              OnlyOnNic(c, before, deleted', s.entry.mac) && NoneGone(conflicting[i + 1..], deleted')
  {
    var x := conflicting[i];
    assert x in conflicting && forall a | a in conflicting[i + 1..] :: a in conflicting[i..];
    forall k | i < k < |conflicting|
      ensures conflicting[k].id != x.id
    {
    }
    forall a | a in c.listed && a.id == x.id
      ensures OnNic(a, s.entry.mac)
    {
      SameIdSameAttachment(c.listed, a, x);
    }
  }

  /** Deletes the attachments of the entry's NIC to other networks; a failure is left in the status. */
  method DropConflicting(server: Server, conflicting: seq<Attachment>, s: Status, deleted: set<string>,
                         ghost c: Context, ghost created: seq<Attachment>)
    returns (s': Status, deleted': set<string>, all: bool)
    requires server.Valid() && Progress(c, deleted, created, server.attachments, server.used)
    requires s in c.entries && forall a | a in conflicting :: a in c.listed && Conflicts(a, s)
    requires Tidy(c) ==> UniqueIds(conflicting) && NicUntouched(c, deleted, s.entry.mac)
    modifies server`attachments, server`log
    ensures server.Valid()
    ensures Progress(c, deleted', created, server.attachments, server.used)
    ensures AttachesSafely(old(server.log), server.log)
    ensures Tidy(c) ==> KeepsWanted(old(server.log), server.log, c.entries)
    ensures s'.entry == s.entry && s'.vni == s.vni && (if all then s' == s else s'.status.phase == AError)
    ensures Tidy(c) ==> OnlyOnNic(c, deleted, deleted', s.entry.mac)
    ensures server.healthy && Tidy(c) ==> all
    ensures conflicting == [] ==>
              all && deleted' == deleted && server.attachments == old(server.attachments)
                && server.log == old(server.log)
  {
    s', deleted', all := s, deleted, true;
    assert conflicting[0..] == conflicting;
    for i := 0 to |conflicting|
      invariant server.Valid() && Progress(c, deleted', created, server.attachments, server.used)
      invariant AttachesSafely(old(server.log), server.log)
      invariant Tidy(c) ==> KeepsWanted(old(server.log), server.log, c.entries)
      invariant s'.entry == s.entry && s'.vni == s.vni && (if all then s' == s else s'.status.phase == AError)
      invariant Tidy(c) ==> OnlyOnNic(c, deleted, deleted', s.entry.mac) && NoneGone(conflicting[i..], deleted')
      invariant server.healthy && Tidy(c) ==> all
      invariant i == 0 ==>
                  all && deleted' == deleted && server.attachments == old(server.attachments)
                    && server.log == old(server.log)
    {
      var a := conflicting[i];
      assert a in conflicting;
      var id := UsableId(a.id);
      if id.None? {
        s', all := WithState(s', State(Failed, "Missing Doca Weave attachment ID")), false;
      } else {
        ConflictMayDrop(c, a, s);
        ghost var log := server.log;
        var r := DropTracked(server, id.value, deleted', c, created);
        SafeTransitive(old(server.log), log, server.log, c.entries);
        if Tidy(c) {
          DropOnNic(c, deleted, deleted', conflicting, i, s);
        }
        if r.Ok? {
          deleted' := deleted' + {id.value};
        } else {
          s', all := WithState(s', State(Failed, "Failed to delete mismatched Doca Weave attachment")), false;
        }
      }
    }
  }

  lemma HeldMore(s: Status, a: seq<Attachment>, b: seq<Attachment>)
    ensures Held(s, a) || Held(s, b) <==> Held(s, a + b)
  {
    if Held(s, a) {
      var x :| x in a && HasKey(x, s.entry.mac, VnetName(s.vni));
      assert x in a + b;
    } else if Held(s, b) {
      var x :| x in b && HasKey(x, s.entry.mac, VnetName(s.vni));
      assert x in a + b;
    }
  }

  /** Once no conflicting attachment is left: keep the exact one, or create it. */
  method KeepOrCreate(server: Server, s: Status, exact: Option<Attachment>, ghost deleted: set<string>,
                      ghost c: Context, ghost created: seq<Attachment>)
    returns (s': Status, ghost created': seq<Attachment>)
    requires server.Valid() && Progress(c, deleted, created, server.attachments, server.used)
    requires s in c.entries && s.vni != 0 && NetworkUsable(s, server.networks, server.ready)
    requires exact.Some? ==> exact.value in c.listed && Held(s, c.listed)
    modifies server`attachments, server`used, server`log
    ensures server.Valid()
    ensures AddsFor(server.healthy, s, created, created')
    ensures Progress(c, deleted, created', server.attachments, server.used)
    ensures AttachesSafely(old(server.log), server.log)
    ensures KeepsWanted(old(server.log), server.log, c.entries)
    ensures s'.entry == s.entry && s'.vni == s.vni
    ensures IsReady(s') ==> Held(s, c.listed + created')
    ensures server.healthy && Attachable(s.entry) ==> Held(s, c.listed + created')
    ensures (exact.Some? || (server.healthy && Attachable(s.entry) && IsReady(s))) && AttachmentsReady(c.listed) ==>
              IsReady(s')
    ensures exact.Some? ==> s' == WithState(s, StateOf(exact.value))
    ensures exact.Some? ==>
              created' == created && server.attachments == old(server.attachments) && server.log == old(server.log)
  {
    if exact.Some? {
      created' := created;
      s' := WithState(s, StateOf(exact.value));
    } else {
      s', created' := CreateTracked(server, s, deleted, c, created);
    }
    HeldMore(s, c.listed, created');
  }

  /** One turn of the loop over the entries. */
  method AttachEntry(server: Server, s: Status, listed: seq<Attachment>, deleted: set<string>, ghost c: Context,
                     ghost created: seq<Attachment>)
    returns (s': Status, deleted': set<string>, ghost created': seq<Attachment>)
    requires server.Valid() && Progress(c, deleted, created, server.attachments, server.used) && c.listed == listed
    requires s in c.entries && (s.vni != 0 && IsReady(s) ==> NetworkUsable(s, server.networks, server.ready))
    requires Tidy(c) ==> NicUntouched(c, deleted, s.entry.mac)
    modifies server`attachments, server`used, server`log
    ensures server.Valid()
    ensures AddsFor(server.healthy, s, created, created')
    ensures Progress(c, deleted', created', server.attachments, server.used)
    ensures AttachesSafely(old(server.log), server.log)
    ensures Tidy(c) ==> KeepsWanted(old(server.log), server.log, c.entries)
    ensures Tidy(c) ==> OnlyOnNic(c, deleted, deleted', s.entry.mac)
    ensures s'.entry == s.entry && s'.vni == s.vni
    ensures s.vni != 0 && IsReady(s') ==> Held(s, listed + created')
    ensures server.healthy && Tidy(c) && CanAttach(s) ==>
              (s.vni != 0 ==> Held(s, listed + created')) && (AttachmentsReady(listed) ==> IsReady(s'))
    ensures Held(s, listed) ==> created' == created
    ensures !IsReady(s) ==> s' == s && server.attachments == old(server.attachments) && server.log == old(server.log)
    ensures s.vni == 0 || (Held(s, listed) && NoConflict(s, listed)) ==>
              && deleted' == deleted && created' == created && server.attachments == old(server.attachments)
              && server.log == old(server.log)
              && (IsReady(s) ==> Copied(s, s', listed))
  {
    s', deleted', created' := s, deleted, created;
    if !IsReady(s) || s.vni == 0 {
      return;
    }
    var exact, conflicting := SplitSameNic(listed, s);
    var all: bool;
    s', deleted', all := DropConflicting(server, conflicting, s, deleted, c, created);
    if !all {
      return;
    }
    ghost var log := server.log;
    s', created' := KeepOrCreate(server, s, exact, deleted', c, created);
    SafeTransitive(old(server.log), log, server.log, c.entries);
  }

  ghost predicate ReadyMeansHeld(entries: seq<Status>, attachments: seq<Attachment>) {
    forall s | s in entries && s.vni != 0 && IsReady(s) :: Held(s, attachments)
  }

  ghost predicate AllHeld(entries: seq<Status>, attachments: seq<Attachment>) {
    forall s | s in entries && s.vni != 0 :: Held(s, attachments)
  }

  predicate AllEntriesReady(entries: seq<Status>) {
    forall s | s in entries :: IsReady(s)
  }

  /** Every entry has its attachment, and no NIC of an attached entry has another. */
  predicate Settled(entries: seq<Status>, attachments: seq<Attachment>) {
    forall s | s in entries && s.vni != 0 :: Held(s, attachments) && NoConflict(s, attachments)
  }

  predicate AllCopied(entries: seq<Status>, done: seq<Status>, attachments: seq<Attachment>) {
    |done| <= |entries| && forall i | 0 <= i < |done| :: IsReady(entries[i]) ==>
      Copied(entries[i], done[i], attachments)
  }

  lemma HeldStep(done: seq<Status>, s: Status, listed: seq<Attachment>, created: seq<Attachment>,
                 created': seq<Attachment>)
    requires created <= created'
    ensures ReadyMeansHeld(done, listed + created) && (s.vni != 0 && IsReady(s) ==> Held(s, listed + created')) ==>
              ReadyMeansHeld(done + [s], listed + created')
    ensures AllHeld(done, listed + created) && (s.vni != 0 ==> Held(s, listed + created')) ==>
              AllHeld(done + [s], listed + created')
  {
    forall t | t in done && Held(t, listed + created)
      ensures Held(t, listed + created')
    {
      HeldMore(t, listed + created, created'[|created|..]);
      assert (listed + created) + created'[|created|..] == listed + created';
    }
  }
}
