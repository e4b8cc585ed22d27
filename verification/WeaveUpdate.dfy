/**
 The loops of the attachment phase and the phase as a whole.
 */
module WeaveUpdate {
  import opened Wrappers
  import opened WeaveModel
  import opened WeaveServer
  import opened WeaveNetworks
  import opened WeaveAttachments

  lemma NothingDoneYet(c: Context)
    requires IdsUsed(c.listed, c.used)
    ensures Progress(c, {}, [], c.listed, c.used)
  {
  }

  lemma NothingCalledYet(log: seq<Call>, entries: seq<Status>)
    ensures AttachesSafely(log, log) && KeepsWanted(log, log, entries)
  {
  }

  ghost predicate CanAttachAll(entries: seq<Status>) {
    forall s | s in entries :: CanAttach(s)
  }

  /** New attachments are on usable networks; in the tidy case, no wanted one is deleted. */
  ghost predicate CallsSafely(c: Context, before: seq<Call>, log: seq<Call>) {
    AttachesSafely(before, log) && (Tidy(c) ==> KeepsWanted(before, log, c.entries))
  }

  lemma CallsSafelyTransitive(c: Context, x: seq<Call>, y: seq<Call>, z: seq<Call>)
    requires CallsSafely(c, x, y) && CallsSafely(c, y, z)
    ensures CallsSafely(c, x, z)
  {
    SafeTransitive(x, y, z, c.entries);
  }

  /** What has been deleted was on the NICs of the first `i` entries. */
  ghost predicate GoneIsServed(c: Context, i: nat, deleted: set<string>) {
    i <= |c.entries| && forall a | a in c.listed && Gone(a, deleted) :: exists j | 0 <= j < i ::
      OnNic(a, c.entries[j].entry.mac)
  }

  lemma NextNicUntouched(c: Context, i: nat, deleted: set<string>)
    requires Tidy(c) && i < |c.entries| && GoneIsServed(c, i, deleted)
    ensures NicUntouched(c, deleted, c.entries[i].entry.mac)
  {
  }

  lemma ServedMore(c: Context, i: nat, deleted: set<string>, deleted': set<string>)
    requires i < |c.entries| && GoneIsServed(c, i, deleted) && OnlyOnNic(c, deleted, deleted', c.entries[i].entry.mac)
    ensures GoneIsServed(c, i + 1, deleted')
  {
  }

  /** Created for an entry that had no attachment when they were listed. */
  ghost predicate MadeForOne(healthy: bool, entries: seq<Status>, listed: seq<Attachment>, a: Attachment) {
    exists s | s in entries :: MadeFor(healthy, s, a) && !Held(s, listed)
  }

  /** No two of the attachments that were not listed are on one NIC. */
  ghost predicate NewApart(listed: seq<Attachment>, attachments: seq<Attachment>) {
    forall x, y | x in attachments && y in attachments && x !in listed && y !in listed && x.spec.Some?
           && y.spec.Some? ::
      x.spec.value.nicId == y.spec.value.nicId ==> x == y
  }

  /** What was created is for the first `i` entries, and in the tidy case for each of them at most one. */
  ghost predicate MadeSoFar(healthy: bool, c: Context, i: nat, created: seq<Attachment>) {
    && i <= |c.entries|
    && (forall a | a in created :: MadeForOne(healthy, c.entries[..i], c.listed, a))
    && (DistinctMacs(c.entries) ==> NewApart([], created))
  }

  lemma MadeForLater(healthy: bool, c: Context, i: nat, a: Attachment)
    requires i < |c.entries| && MadeForOne(healthy, c.entries[..i], c.listed, a)
    ensures MadeForOne(healthy, c.entries[..i + 1], c.listed, a)
    ensures DistinctMacs(c.entries) ==> a.spec.Some? && a.spec.value.nicId != c.entries[i].entry.mac
  {
    var t :| t in c.entries[..i] && MadeFor(healthy, t, a) && !Held(t, c.listed);
    assert t in c.entries[..i + 1];
  }

  lemma MadeMore(healthy: bool, c: Context, i: nat, created: seq<Attachment>, created': seq<Attachment>)
    requires MadeSoFar(healthy, c, i, created) && i < |c.entries|
    requires AddsFor(healthy, c.entries[i], created, created') && (Held(c.entries[i], c.listed) ==> created' == created)
    ensures MadeSoFar(healthy, c, i + 1, created')
  {
    forall a | a in created
      ensures MadeForOne(healthy, c.entries[..i + 1], c.listed, a)
      ensures DistinctMacs(c.entries) ==> a.spec.Some? && a.spec.value.nicId != c.entries[i].entry.mac
    {
      MadeForLater(healthy, c, i, a);
    }
    if created' != created {
      var a := created'[|created|];
      assert created' == created + [a] && c.entries[i] in c.entries[..i + 1];
      assert MadeForOne(healthy, c.entries[..i + 1], c.listed, a);
    }
  }

  /** The settled case of the loop: nothing has been called, and the statuses are copied. */
  ghost predicate OnlyCopied(c: Context, done: seq<Status>, deleted: set<string>, attachments: seq<Attachment>,
                             log: seq<Call>, before: seq<Call>) {
    deleted == {} && attachments == c.listed && log == before && AllCopied(c.entries, done, c.listed)
  }

  lemma CopiedStep(c: Context, done: seq<Status>, s: Status)
    requires |done| < |c.entries|
    ensures AllCopied(c.entries, done, c.listed)
            && (IsReady(c.entries[|done|]) ==> Copied(c.entries[|done|], s, c.listed)) ==>
              AllCopied(c.entries, done + [s], c.listed)
  {
  }

  /** What the loop has made of the first `i` entries. */
  ghost predicate Served(healthy: bool, c: Context, i: nat, done: seq<Status>, deleted: set<string>,
                         created: seq<Attachment>) {
    && |done| == i && Follows(c.entries, done) && ReadyMeansHeld(done, c.listed + created)
    && MadeSoFar(healthy, c, i, created)
    && (Tidy(c) ==> GoneIsServed(c, i, deleted))
    && (healthy && Tidy(c) && CanAttachAll(c.entries) ==>
          AllHeld(done, c.listed + created) && (AttachmentsReady(c.listed) ==> AllEntriesReady(done)))
  }

  /** What one turn says of its entry. */
  ghost predicate ServedNext(healthy: bool, c: Context, s: Status, s': Status, gone: set<string>, deleted: set<string>,
                             had: seq<Attachment>, created: seq<Attachment>) {
    && s'.entry == s.entry && s'.vni == s.vni
    && AddsFor(healthy, s, had, created) && (Held(s, c.listed) ==> created == had)
    && (s.vni != 0 && IsReady(s') ==> Held(s, c.listed + created))
    && (Tidy(c) ==> OnlyOnNic(c, gone, deleted, s.entry.mac))
    && (healthy && Tidy(c) && CanAttach(s) ==>
          (s.vni != 0 ==> Held(s, c.listed + created)) && (AttachmentsReady(c.listed) ==> IsReady(s')))
  }

  lemma ServedStep(healthy: bool, c: Context, i: nat, done: seq<Status>, s: Status, gone: set<string>,
                   deleted: set<string>,
                   had: seq<Attachment>, created: seq<Attachment>)
    requires i < |c.entries| && Served(healthy, c, i, done, gone, had)
    requires ServedNext(healthy, c, c.entries[i], s, gone, deleted, had, created)
    ensures Served(healthy, c, i + 1, done + [s], deleted, created)
  {
    HeldStep(done, s, c.listed, had, created);
    MadeMore(healthy, c, i, had, created);
    FollowsStep(c.entries, done, s);
    if Tidy(c) {
      ServedMore(c, i, gone, deleted);
    }
  }

  /** The loop over the entries. */
  method AttachAll(server: Server, listed: seq<Attachment>, entries: seq<Status>, ghost c: Context)
    returns (done: seq<Status>, deleted: set<string>, ghost created: seq<Attachment>)
    requires server.Valid() && server.attachments == listed && c == Context(listed, server.used, entries)
    requires ReadyMeansUsable(entries, server.networks, server.ready)
    modifies server`attachments, server`used, server`log
    ensures server.Valid() && Progress(c, deleted, created, server.attachments, server.used)
    ensures CallsSafely(c, old(server.log), server.log)
    ensures Served(server.healthy, c, |entries|, done, deleted, created)
    ensures Settled(entries, listed) ==> OnlyCopied(c, done, deleted, server.attachments, server.log, old(server.log))
  {
    done, deleted, created := [], {}, [];
    ghost var settled := Settled(entries, listed);
    NothingDoneYet(c);
    NothingCalledYet(server.log, entries);
    for i := 0 to |entries|
      invariant server.Valid() && Progress(c, deleted, created, server.attachments, server.used)
      invariant CallsSafely(c, old(server.log), server.log)
      invariant Served(server.healthy, c, i, done, deleted, created)
      invariant settled ==> OnlyCopied(c, done, deleted, server.attachments, server.log, old(server.log))
    {
      ghost var log, had, gone := server.log, created, deleted;
      var s: Status;
      if Tidy(c) {
        NextNicUntouched(c, i, deleted);
      }
      s, deleted, created := AttachEntry(server, entries[i], listed, deleted, c, created);
      CallsSafelyTransitive(c, old(server.log), log, server.log);
      ServedStep(server.healthy, c, i, done, s, gone, deleted, had, created);
      CopiedStep(c, done, s);
      done := done + [s];
    }
  }

  /** Entries that differ only in status want the same attachments. */
  lemma SameEntriesWant(a: seq<Status>, b: seq<Status>, x: Attachment)
    requires SameEntries(a, b)
    ensures Wanted(x, a) <==> Wanted(x, b)
  {
    forall i | 0 <= i < |a|
      ensures a[i] in a && b[i] in b && a[i].entry == b[i].entry && a[i].vni == b[i].vni
    {
    }
  }

  /** The first `i` listed attachments are wanted or deleted, as far as they can be. */
  ghost predicate Swept(c: Context, i: nat, deleted: set<string>) {
    i <= |c.listed| && forall j | 0 <= j < i && UsableId(c.listed[j].id).Some? ::
      Wanted(c.listed[j], c.entries) || Gone(c.listed[j], deleted)
  }

  lemma SweptStep(c: Context, i: nat, deleted: set<string>, deleted': set<string>)
    requires Swept(c, i, deleted) && i < |c.listed| && deleted <= deleted'
    requires UsableId(c.listed[i].id).Some? ==> Wanted(c.listed[i], c.entries) || Gone(c.listed[i], deleted')
    ensures Swept(c, i + 1, deleted')
  {
  }

  /** The pass over the listed attachments. */
  method DropUnwanted(server: Server, listed: seq<Attachment>, already: set<string>, entries: seq<Status>,
                      ghost c: Context, ghost created: seq<Attachment>)
    returns (r: Result<(), string>, ghost deleted: set<string>)
    requires server.Valid() && Progress(c, already, created, server.attachments, server.used)
    requires c.listed == listed && SameEntries(c.entries, entries)
    modifies server`attachments, server`log
    ensures server.Valid() && Progress(c, deleted, created, server.attachments, server.used)
    ensures CallsSafely(c, old(server.log), server.log)
    ensures r.Ok? ==> Swept(c, |listed|, deleted)
    ensures server.healthy ==> r.Ok?
    ensures AllWanted(listed, c.entries) ==>
              r.Ok? && server.attachments == old(server.attachments) && server.log == old(server.log)
  {
    var gone := already;
    deleted := already;
    ghost var wanted := AllWanted(listed, c.entries);
    NothingCalledYet(server.log, c.entries);
    for i := 0 to |listed|
      invariant deleted == gone && server.Valid() && Progress(c, deleted, created, server.attachments, server.used)
      invariant AttachesSafely(old(server.log), server.log)
      invariant Tidy(c) ==> KeepsWanted(old(server.log), server.log, c.entries)
      invariant Swept(c, i, deleted)
      invariant wanted ==> server.attachments == old(server.attachments) && server.log == old(server.log)
    {
      var a := listed[i];
      SameEntriesWant(c.entries, entries, a);
      var id := UsableId(a.id);
      ghost var before := gone;
      if !Gone(a, gone) && !Wanted(a, entries) && id.Some? {
        ghost var log := server.log;
        assert MayDrop(c, id.value);
        r := DropTracked(server, id.value, gone, c, created);
        SafeTransitive(old(server.log), log, server.log, c.entries);
        if r.Err? {
          return;
        }
        gone := gone + {id.value};
        deleted := gone;
      }
      SweptStep(c, i, before, gone);
    }
    r := Ok(());
  }

  lemma SweptMeansWanted(c: Context, deleted: set<string>, created: seq<Attachment>, attachments: seq<Attachment>,
                         used: seq<string>)
    requires Progress(c, deleted, created, attachments, used) && Tidy(c) && Swept(c, |c.listed|, deleted)
    ensures AllWanted(attachments, c.entries)
  {
  }

  /** In the tidy case, what an entry had when it was listed or was given since is still there. */
  lemma HeldAtTheEnd(c: Context, deleted: set<string>, created: seq<Attachment>, attachments: seq<Attachment>,
                     used: seq<string>, s: Status)
    requires Progress(c, deleted, created, attachments, used) && Tidy(c)
    requires (exists t | t in c.entries :: t.entry == s.entry && t.vni == s.vni) && Held(s, c.listed + created)
    ensures Held(s, attachments)
  {
    var a :| a in c.listed + created && HasKey(a, s.entry.mac, VnetName(s.vni));
    if a in c.listed {
      WantedStays(c, deleted, created, attachments, used, a);
    }
  }

  lemma AllHeldAtTheEnd(c: Context, deleted: set<string>, created: seq<Attachment>, attachments: seq<Attachment>,
                        used: seq<string>, done: seq<Status>)
    requires Progress(c, deleted, created, attachments, used) && Tidy(c) && SameEntries(c.entries, done)
    ensures ReadyMeansHeld(done, c.listed + created) ==> ReadyMeansHeld(done, attachments)
    ensures AllHeld(done, c.listed + created) ==> AllHeld(done, attachments)
  {
    forall s | s in done && Held(s, c.listed + created)
      ensures Held(s, attachments)
    {
      var i :| 0 <= i < |done| && done[i] == s;
      assert c.entries[i] in c.entries;
      HeldAtTheEnd(c, deleted, created, attachments, used, s);
    }
  }

  lemma SameAttachmentsKeep(a: seq<Attachment>, b: seq<Attachment>, entries: seq<Status>)
    requires SameAttachments(a, b)
    ensures UniqueIds(a) ==> UniqueIds(b)
    ensures AllWanted(a, entries) ==> AllWanted(b, entries)
    ensures Settled(entries, a) ==> Settled(entries, b)
    ensures NoneOn(a, VnetName(0)) ==> NoneOn(b, VnetName(0))
  {
    forall x | x in b
      ensures exists y | y in a :: y.id == x.id && y.spec == x.spec
    {
      var i :| 0 <= i < |b| && b[i] == x;
      assert a[i] in a;
    }
    if Settled(entries, a) {
      forall s | s in entries && s.vni != 0
        ensures Held(s, b)
      {
        var x :| x in a && HasKey(x, s.entry.mac, VnetName(s.vni));
        var i :| 0 <= i < |a| && a[i] == x;
        assert b[i] in b;
      }
    }
  }

  ghost predicate TidyStart(entries: seq<Status>, attachments: seq<Attachment>) {
    DistinctMacs(entries) && UniqueIds(attachments)
  }

  /** Whatever fails, attachments are created only on usable networks and wanted ones are never deleted. */
  ghost predicate UpdatesSafely(a: View, b: View, entries: seq<Status>) {
    && b.networks == a.networks
    && (UniqueIds(a.attachments) ==> UniqueIds(b.attachments))
    && (NoneOn(a.attachments, VnetName(0)) ==> NoneOn(b.attachments, VnetName(0)))
    && AttachesSafely(a.log, b.log)
    && (TidyStart(entries, a.attachments) ==> KeepsWanted(a.log, b.log, entries))
  }

  /**
   A finished phase leaves only wanted attachments and one for every Ready entry; a healthy
   server ends up with one for every entry that can be attached.
   */
  ghost predicate Updated(healthy: bool, a: View, b: View, entries: seq<Status>, done: seq<Status>) {
    && SameEntries(entries, done)
    && (TidyStart(entries, a.attachments) ==> AllWanted(b.attachments, entries) && ReadyMeansHeld(done, b.attachments))
    && (healthy && TidyStart(entries, a.attachments) && CanAttachAll(entries) ==>
          AllHeld(done, b.attachments) && (AttachmentsReady(a.attachments) ==> AllEntriesReady(done)))
    && (healthy ==> Renewed(entries, a.attachments, b.attachments))
    && (healthy && TidyStart(entries, a.attachments) ==> WantedKept(entries, a.attachments, b.attachments))
  }

  ghost predicate WantedKept(entries: seq<Status>, before: seq<Attachment>, after: seq<Attachment>) {
    forall x | x in before && Wanted(x, entries) :: x in after
  }

  /** What was not there before is Ready, carries its entry's revision, and was missing. */
  ghost predicate Renewed(entries: seq<Status>, before: seq<Attachment>, after: seq<Attachment>) {
    && (forall x | x in after && x !in before :: MadeForOne(true, entries, before, x))
    && (DistinctMacs(entries) ==> NewApart(before, after))
  }

  ghost predicate IsSettled(entries: seq<Status>, attachments: seq<Attachment>) {
    Settled(entries, attachments) && AllWanted(attachments, entries)
  }

  ghost predicate PhaseTwo(healthy: bool, a: View, b: View, entries: seq<Status>, r: Result<seq<Status>, string>) {
    match r
    case Ok(done) =>
      && UpdatesSafely(a, b, entries)
      && Updated(healthy, a, b, entries, done)
      && (IsSettled(entries, a.attachments) ==>
            b.log == a.log && SameAttachments(a.attachments, b.attachments) && AllCopied(entries, done, b.attachments)
            && (healthy ==> b.attachments == a.attachments))
    case Err(_) =>
      && !healthy
      && UpdatesSafely(a, b, entries)
      && (IsSettled(entries, a.attachments) ==> b.log == a.log)
  }

  /** What the two loops leave behind, whether the second one finished or not. */
  ghost predicate LoopsRan(c: Context, created: seq<Attachment>, gone: set<string>, a: View, b: View,
                           used: seq<string>) {
    && b.networks == a.networks
    && Progress(c, gone, created, b.attachments, used)
    && CallsSafely(c, a.log, b.log)
    && (IsSettled(c.entries, c.listed) ==> b.log == a.log && b.attachments == c.listed)
  }

  ghost predicate LoopsFinished(healthy: bool, c: Context, created: seq<Attachment>, gone: set<string>,
                                done: seq<Status>) {
    && Swept(c, |c.listed|, gone)
    && (exists deleted :: Served(healthy, c, |c.entries|, done, deleted, created))
    && (IsSettled(c.entries, c.listed) ==> AllCopied(c.entries, done, c.listed))
  }

  /** Nothing to do in the first loop and nothing in the second. */
  lemma SettledLoops(c: Context, a: View, m: View, b: View)
    requires a.attachments == c.listed
    requires Settled(c.entries, c.listed) ==> m.attachments == c.listed && m.log == a.log
    requires AllWanted(c.listed, c.entries) ==> b.attachments == m.attachments && b.log == m.log
    ensures IsSettled(c.entries, c.listed) ==> b.log == a.log && b.attachments == c.listed
  {
  }

  method RunLoops(server: Server, listed: seq<Attachment>, entries: seq<Status>, ghost c: Context)
    returns (r: Result<seq<Status>, string>, ghost created: seq<Attachment>, ghost gone: set<string>)
    requires server.Valid() && server.attachments == listed && c == Context(listed, server.used, entries)
    requires ReadyMeansUsable(entries, server.networks, server.ready)
    modifies server`attachments, server`used, server`log
    ensures server.Valid()
    ensures LoopsRan(c, created, gone, old(server.Now()), server.Now(), server.used)
    ensures r.Ok? ==> LoopsFinished(server.healthy, c, created, gone, r.value)
    ensures server.healthy ==> r.Ok?
  {
    ghost var a := server.Now();
    var done, deleted;
    done, deleted, created := AttachAll(server, listed, entries, c);
    ghost var m := server.Now();
    var dropped;
    dropped, gone := DropUnwanted(server, listed, deleted, done, c, created);
    ghost var b := server.Now();
    CallsSafelyTransitive(c, a.log, m.log, b.log);
    SettledLoops(c, a, m, b);
    r := if dropped.Ok? then Ok(done) else Err(dropped.error);
  }

  lemma RanSafely(c: Context, created: seq<Attachment>, gone: set<string>, a: View, listed: View, b: View,
                  used: seq<string>)
    requires SameAttachments(a.attachments, c.listed) && listed == a.(attachments := c.listed)
    requires LoopsRan(c, created, gone, listed, b, used)
    ensures UpdatesSafely(a, b, c.entries)
    ensures TidyStart(c.entries, a.attachments) ==> Tidy(c)
    ensures IsSettled(c.entries, a.attachments) ==> IsSettled(c.entries, c.listed)
  {
    SameAttachmentsKeep(a.attachments, c.listed, c.entries);
  }

  lemma RanToTheEnd(healthy: bool, c: Context, created: seq<Attachment>, gone: set<string>, done: seq<Status>, a: View,
                    listed: View, b: View, used: seq<string>)
    requires SameAttachments(a.attachments, c.listed) && listed == a.(attachments := c.listed)
    requires healthy ==> c.listed == a.attachments
    requires LoopsRan(c, created, gone, listed, b, used) && LoopsFinished(healthy, c, created, gone, done)
    ensures Updated(healthy, a, b, c.entries, done)
  {
    RanSafely(c, created, gone, a, listed, b, used);
    assert c.entries[..|c.entries|] == c.entries;
    if Tidy(c) {
      SweptMeansWanted(c, gone, created, b.attachments, used);
      AllHeldAtTheEnd(c, gone, created, b.attachments, used, done);
      forall x | x in c.listed && Wanted(x, c.entries)
        ensures x in b.attachments
      {
        WantedStays(c, gone, created, b.attachments, used, x);
      }
    }
  }

  lemma PhaseTwoHolds(healthy: bool, c: Context, created: seq<Attachment>, gone: set<string>, a: View, listed: View,
                      b: View, used: seq<string>,
                      r: Result<seq<Status>, string>)
    requires SameAttachments(a.attachments, c.listed) && listed == a.(attachments := c.listed)
    requires healthy ==> c.listed == a.attachments
    requires LoopsRan(c, created, gone, listed, b, used)
    requires (r.Ok? ==> LoopsFinished(healthy, c, created, gone, r.value)) && (healthy ==> r.Ok?)
    ensures PhaseTwo(healthy, a, b, c.entries, r)
  {
    RanSafely(c, created, gone, a, listed, b, used);
    if r.Ok? {
      RanToTheEnd(healthy, c, created, gone, r.value, a, listed, b, used);
    }
  }

  lemma NotListed(a: View, b: View, entries: seq<Status>, r: Result<seq<Status>, string>)
    requires SameAttachments(a.attachments, b.attachments) && b == a.(attachments := b.attachments) && r.Err?
    ensures PhaseTwo(false, a, b, entries, r)
  {
    SameAttachmentsKeep(a.attachments, b.attachments, entries);
    NothingCalledYet(a.log, entries);
  }

  /** Phase 2. */
  method UpdateAttachments(server: Server, entries: seq<Status>) returns (r: Result<seq<Status>, string>)
    requires server.Valid() && ReadyMeansUsable(entries, server.networks, server.ready)
    modifies server`attachments, server`used, server`log
    ensures server.Valid()
    ensures PhaseTwo(server.healthy, old(server.Now()), server.Now(), entries, r)
  {
    ghost var a := server.Now();
    var rsp := server.ListAttachments();
    ghost var listed := server.Now();
    if rsp.Err? {
      r := Err(rsp.error);
      NotListed(a, listed, entries, r);
      return;
    }
    ghost var c := Context(rsp.value, server.used, entries);
    ghost var created, gone;
    r, created, gone := RunLoops(server, rsp.value, entries, c);
    PhaseTwoHolds(server.healthy, c, created, gone, a, listed, server.Now(), server.used, r);
  }
}
