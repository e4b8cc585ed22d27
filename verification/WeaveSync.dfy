/**
 The fast path: when the server's revision is the config's, the reported status is copied
 from the server's attachments, provided they pair off with the attached config entries.
 */
module WeaveSync {
  import opened Wrappers
  import opened WeaveModel

  datatype SyncError = CountMismatch | MissingRevision | MissingAttachment | MissingState | VniTooLarge | NotInConfig

  type Key = Option<(string, string)>

  function KeyOf(a: Attachment): Key {
    if a.spec.Some? then Some((a.spec.value.nicId, a.spec.value.vnetId)) else None
  }

  function EntryKey(e: Entry): Key {
    Some((e.mac, VnetName(AsI32(e.vni))))
  }

  function Keys(attachments: seq<Attachment>): seq<Key> {
    seq(|attachments|, i requires 0 <= i < |attachments| => KeyOf(attachments[i]))
  }

  /** The keys of the entries that are not detached. */
  function ConfigKeys(config: Config): seq<Key> {
    if config == [] then []
    else
      var n := |config| - 1;
      if config[n].vni == 0 then ConfigKeys(config[..n]) else ConfigKeys(config[..n]) + [EntryKey(config[n])]
  }

  predicate EntryUsable(e: Entry) {
    e.revision != "" && e.vni <= MAX_I32
  }

  predicate EntriesUsable(config: Config) {
    forall e | e in config :: EntryUsable(e)
  }

  /** The attachments pair off with the attached entries, and nothing needed for the status is missing. */
  predicate InSync(config: Config, attachments: seq<Attachment>) {
    && multiset(Keys(attachments)) == multiset(ConfigKeys(config))
    && (forall a | a in attachments :: a.state.Some?)
    && EntriesUsable(config)
  }

  /** The keys at the positions not used yet. */
  function Remaining(keys: seq<Key>, used: set<nat>): multiset<Key> {
    if keys == [] then multiset{}
    else
      var n := |keys| - 1;
      Remaining(keys[..n], used) + (if n in used then multiset{} else multiset{keys[n]})
  }

  lemma {:induction false} RemainingAll(keys: seq<Key>)
    ensures Remaining(keys, {}) == multiset(keys)
  {
    if keys != [] {
      var n := |keys| - 1;
      RemainingAll(keys[..n]);
      assert keys == keys[..n] + [keys[n]];
    }
  }

  lemma {:induction false} RemainingLacks(keys: seq<Key>, used: set<nat>, k: Key)
    requires forall i | 0 <= i < |keys| && i !in used :: keys[i] != k
    ensures k !in Remaining(keys, used)
  {
    if keys != [] {
      RemainingLacks(keys[..|keys| - 1], used, k);
    }
  }

  lemma {:induction false} RemainingUse(keys: seq<Key>, used: set<nat>, i: nat)
    requires i < |keys| && i !in used
    ensures Remaining(keys, used) == Remaining(keys, used + {i}) + multiset{keys[i]}
  {
    var n := |keys| - 1;
    if i == n {
      RemainingFrame(keys[..n], used, i);
    } else {
      RemainingUse(keys[..n], used, i);
    }
  }

  lemma {:induction false} RemainingFrame(keys: seq<Key>, used: set<nat>, i: nat)
    requires i >= |keys|
    ensures Remaining(keys, used) == Remaining(keys, used + {i})
  {
    if keys != [] {
      RemainingFrame(keys[..|keys| - 1], used, i);
    }
  }

  function KeyOrNothing(e: Entry): multiset<Key> {
    if e.vni == 0 then multiset{} else multiset{EntryKey(e)}
  }

  lemma ConfigKeysStep(config: Config, i: nat)
    requires i < |config|
    ensures |ConfigKeys(config[..i + 1])| == |ConfigKeys(config[..i])| + (if config[i].vni == 0 then 0 else 1)
    ensures multiset(ConfigKeys(config[..i + 1])) == multiset(ConfigKeys(config[..i])) + KeyOrNothing(config[i])
  {
    assert config[..i + 1][..i] == config[..i];
  }

  lemma {:induction false} ConfigKeysGrow(config: Config, i: nat)
    requires i <= |config|
    ensures multiset(ConfigKeys(config[..i])) <= multiset(ConfigKeys(config))
    decreases |config| - i
  {
    if i == |config| {
      assert config[..i] == config;
    } else {
      ConfigKeysStep(config, i);
      ConfigKeysGrow(config, i + 1);
    }
  }

  /** The first unmatched attachment with the entry's key. */
  method FindMatch(attachments: seq<Attachment>, matched: set<nat>, e: Entry) returns (found: Option<nat>)
    ensures found.Some? ==> && found.value < |attachments| && found.value !in matched
                            && KeyOf(attachments[found.value]) == EntryKey(e)
    ensures found.Some? ==> forall i | 0 <= i < found.value && i !in matched :: KeyOf(attachments[i]) != EntryKey(e)
    ensures found.None? ==> forall i | 0 <= i < |attachments| && i !in matched :: KeyOf(attachments[i]) != EntryKey(e)
  {
    for i := 0 to |attachments|
      invariant forall j | 0 <= j < i && j !in matched :: KeyOf(attachments[j]) != EntryKey(e)
    {
      if i !in matched && HasKey(attachments[i], e.mac, VnetName(AsI32(e.vni))) {
        return Some(i);
      }
    }
    return None;
  }

  /** A matched entry's status is the attachment's state; a detached entry is Ready. */
  predicate StatusFor(s: Status, e: Entry, a: Option<Attachment>) {
    && s.entry == e && s.vni == e.vni && EntryUsable(e)
    && (e.vni == 0 ==> a.None? && s.status == READY_STATUS)
    && (e.vni != 0 ==> && a.Some? && KeyOf(a.value) == EntryKey(e) && a.value.state.Some?
                       && s == WithState(s, a.value.state.value))
  }

  method CountAttached(config: Config) returns (count: nat)
    ensures count == |ConfigKeys(config)|
  {
    count := 0;
    for i := 0 to |config|
      invariant count == |ConfigKeys(config[..i])|
    {
      ConfigKeysStep(config, i);
      if config[i].vni != 0 {
        count := count + 1;
      }
    }
    assert config[..|config|] == config;
  }

  /** The indices below `n`. */
  function Indices(n: nat): (r: set<nat>)
    ensures |r| == n && forall i :: i in r <==> 0 <= i < n
  {
    if n == 0 then {} else Indices(n - 1) + {n - 1}
  }

  /** Every entry so far has its status; picks are attachments, all different, and exactly the matched ones. */
  ghost predicate Paired(config: Config, attachments: seq<Attachment>, statuses: seq<Status>, picks: seq<Option<nat>>,
                         matched: set<nat>) {
    && |statuses| == |picks| <= |config|
    && (forall j | 0 <= j < |picks| && picks[j].Some? :: picks[j].value < |attachments|)
    && (forall j | 0 <= j < |picks| :: StatusFor(statuses[j], config[j], PickedBy(attachments, picks[j])))
    && (forall j, k | 0 <= j < k < |picks| && picks[j].Some? :: picks[j] != picks[k])
    && (forall x: nat :: x in matched <==> Some(x) in picks)
  }

  function PickedBy(attachments: seq<Attachment>, pick: Option<nat>): Option<Attachment> {
    if pick.Some? && pick.value < |attachments| then Some(attachments[pick.value]) else None
  }

  lemma PairedStep(config: Config, attachments: seq<Attachment>, statuses: seq<Status>, picks: seq<Option<nat>>,
                   matched: set<nat>,
                   s: Status, pick: Option<nat>)
    requires Paired(config, attachments, statuses, picks, matched) && |picks| < |config|
    requires pick.Some? ==> pick.value < |attachments| && pick.value !in matched
    requires StatusFor(s, config[|picks|], PickedBy(attachments, pick))
    ensures Paired(config, attachments, statuses + [s], picks + [pick], if pick.Some? then matched + {pick.value}
                   else matched)
  {
  }

  /** The counting behind the loop: unmatched keys and served entries make up all keys. */
  ghost predicate Tallied(config: Config, keys: seq<Key>, i: nat, matched: set<nat>)
    requires i <= |config|
  {
    && |matched| == |ConfigKeys(config[..i])|
    && multiset(keys) == Remaining(keys, matched) + multiset(ConfigKeys(config[..i]))
    && matched <= Indices(|keys|)
  }

  lemma TallyMatch(config: Config, keys: seq<Key>, i: nat, matched: set<nat>, x: nat)
    requires i < |config| && Tallied(config, keys, i, matched) && config[i].vni != 0
    requires x < |keys| && x !in matched && keys[x] == EntryKey(config[i])
    ensures Tallied(config, keys, i + 1, matched + {x})
  {
    RemainingUse(keys, matched, x);
    ConfigKeysStep(config, i);
  }

  lemma TallyDetached(config: Config, keys: seq<Key>, i: nat, matched: set<nat>)
    requires i < |config| && Tallied(config, keys, i, matched) && config[i].vni == 0
    ensures Tallied(config, keys, i + 1, matched)
  {
    ConfigKeysStep(config, i);
  }

  /** If no unmatched attachment has the entry's key, the keys do not pair off. */
  lemma TallyMissing(config: Config, keys: seq<Key>, i: nat, matched: set<nat>)
    requires i < |config| && Tallied(config, keys, i, matched) && config[i].vni != 0
    requires forall x | 0 <= x < |keys| && x !in matched :: keys[x] != EntryKey(config[i])
    ensures multiset(keys) != multiset(ConfigKeys(config))
  {
    var k := EntryKey(config[i]);
    RemainingLacks(keys, matched, k);
    ConfigKeysStep(config, i);
    ConfigKeysGrow(config, i + 1);
    assert multiset(keys)[k] == multiset(ConfigKeys(config[..i]))[k];
    assert multiset(ConfigKeys(config[..i + 1]))[k] <= multiset(ConfigKeys(config))[k];
  }

  lemma TallyDone(config: Config, keys: seq<Key>, matched: set<nat>)
    requires Tallied(config, keys, |config|, matched) && |keys| == |ConfigKeys(config)|
    ensures multiset(keys) == multiset(ConfigKeys(config)) && matched == Indices(|keys|)
  {
    assert config[..|config|] == config;
    var all := Indices(|keys|);
    assert all == matched + (all - matched) && |all| == |matched| + |all - matched|;
    assert |multiset(keys)| == |Remaining(keys, matched)| + |multiset(ConfigKeys(config))|;
  }

  predicate NoMatch(attachments: seq<Attachment>, matched: set<nat>, e: Entry) {
    forall x | 0 <= x < |attachments| && x !in matched :: KeyOf(attachments[x]) != EntryKey(e)
  }

  /** One turn of the loop: the status of an entry and the attachment it takes. */
  method SyncEntry(attachments: seq<Attachment>, matched: set<nat>, e: Entry)
    returns (r: Result<Status, SyncError>, pick: Option<nat>)
    ensures r.Ok? ==> && EntryUsable(e) && StatusFor(r.value, e, PickedBy(attachments, pick))
                      && (pick.Some? ==> pick.value < |attachments| && pick.value !in matched)
                      && (pick.Some? <==> e.vni != 0)
    ensures r.Err? ==> match r.error
                       case MissingRevision => e.revision == ""
                       case MissingAttachment => e.vni != 0 && NoMatch(attachments, matched, e)
                       case MissingState => e.vni != 0 && exists a | a in attachments ::
                         KeyOf(a) == EntryKey(e) && a.state.None?
                       case VniTooLarge => e.vni > MAX_I32 && e.revision != ""
                       case _ => false
    ensures r.Err? ==> || !EntryUsable(e)
                       || (e.vni != 0 && NoMatch(attachments, matched, e))
                       || exists a | a in attachments :: a.state.None?
  {
    pick := None;
    if e.vni == 0 {
      if e.revision == "" {
        return Err(MissingRevision), None;
      }
      return Ok(Status(e, 0, READY_STATUS)), None;
    }
    pick := FindMatch(attachments, matched, e);
    if pick.None? {
      return Err(MissingAttachment), None;
    }
    var state := attachments[pick.value].state;
    assert attachments[pick.value] in attachments;
    if state.None? {
      return Err(MissingState), None;
    }
    if e.revision == "" {
      return Err(MissingRevision), None;
    }
    if e.vni > MAX_I32 {
      return Err(VniTooLarge), None;
    }
    r := Ok(WithState(Status(e, e.vni, READY_STATUS), state.value));
  }

  lemma TallyStep(config: Config, attachments: seq<Attachment>, i: nat, matched: set<nat>, pick: Option<nat>)
    requires i < |config| && Tallied(config, Keys(attachments), i, matched) && (pick.Some? <==> config[i].vni != 0)
    requires pick.Some? ==> && pick.value < |attachments| && pick.value !in matched
                            && KeyOf(attachments[pick.value]) == EntryKey(config[i])
    ensures Tallied(config, Keys(attachments), i + 1, if pick.Some? then matched + {pick.value} else matched)
  {
    if pick.Some? {
      TallyMatch(config, Keys(attachments), i, matched, pick.value);
    } else {
      TallyDetached(config, Keys(attachments), i, matched);
    }
  }

  lemma FailureMeansOutOfSync(config: Config, attachments: seq<Attachment>, i: nat, matched: set<nat>)
    requires i < |config| && Tallied(config, Keys(attachments), i, matched)
    requires || !EntryUsable(config[i])
             || (config[i].vni != 0 && NoMatch(attachments, matched, config[i]))
             || exists a | a in attachments :: a.state.None?
    ensures !InSync(config, attachments)
  {
    assert config[i] in config;
    if config[i].vni != 0 && NoMatch(attachments, matched, config[i]) {
      TallyMissing(config, Keys(attachments), i, matched);
    }
  }

  lemma DifferentCounts(config: Config, attachments: seq<Attachment>)
    requires |attachments| != |ConfigKeys(config)|
    ensures !InSync(config, attachments)
  {
    assert |multiset(Keys(attachments))| != |multiset(ConfigKeys(config))|;
  }

  lemma NothingPairedYet(config: Config, attachments: seq<Attachment>)
    ensures Tallied(config, Keys(attachments), 0, {}) && Paired(config, attachments, [], [], {})
  {
    RemainingAll(Keys(attachments));
  }

  lemma PickedHasState(config: Config, attachments: seq<Attachment>, statuses: seq<Status>, picks: seq<Option<nat>>,
                       matched: set<nat>, x: nat)
    requires Paired(config, attachments, statuses, picks, matched) && x in matched && x < |attachments|
    ensures attachments[x].state.Some?
  {
    var j :| 0 <= j < |picks| && picks[j] == Some(x);
    assert StatusFor(statuses[j], config[j], PickedBy(attachments, picks[j]));
  }

  lemma PairedMeansInSync(config: Config, attachments: seq<Attachment>, statuses: seq<Status>, picks: seq<Option<nat>>,
                          matched: set<nat>)
    requires Paired(config, attachments, statuses, picks, matched) && |picks| == |config|
    requires Tallied(config, Keys(attachments), |config|, matched) && |attachments| == |ConfigKeys(config)|
    ensures InSync(config, attachments) && matched == Indices(|attachments|)
  {
    TallyDone(config, Keys(attachments), matched);
    forall a | a in attachments
      ensures a.state.Some?
    {
      var x: nat :| x < |attachments| && attachments[x] == a;
      PickedHasState(config, attachments, statuses, picks, matched, x);
    }
    forall e | e in config
      ensures EntryUsable(e)
    {
      var j :| 0 <= j < |config| && config[j] == e;
      assert StatusFor(statuses[j], config[j], PickedBy(attachments, picks[j]));
    }
  }

  /**
   Succeeds exactly when config and server are in sync; then every attachment is matched by
   one entry and every attached entry by one attachment.
   */
  method SyncStatus(config: Config, attachments: seq<Attachment>)
    returns (r: Result<seq<Status>, SyncError>, ghost picks: seq<Option<nat>>)
    ensures r.Ok? <==> InSync(config, attachments)
    ensures r != Err(NotInConfig)
    ensures r.Ok? ==> |picks| == |config| && Paired(config, attachments, r.value, picks, Indices(|attachments|))
  {
    picks := [];
    var expected := CountAttached(config);
    if expected != |attachments| {
      DifferentCounts(config, attachments);
      return Err(CountMismatch), [];
    }
    var matched: set<nat> := {};
    var statuses := [];
    NothingPairedYet(config, attachments);
    for i := 0 to |config|
      invariant |picks| == i && Paired(config, attachments, statuses, picks, matched)
      invariant Tallied(config, Keys(attachments), i, matched)
    {
      var status, pick := SyncEntry(attachments, matched, config[i]);
      if status.Err? {
        FailureMeansOutOfSync(config, attachments, i, matched);
        return Err(status.error), [];
      }
      TallyStep(config, attachments, i, matched, pick);
      PairedStep(config, attachments, statuses, picks, matched, status.value, pick);
      if pick.Some? {
        matched := matched + {pick.value};
      }
      statuses := statuses + [status.value];
      picks := picks + [pick];
    }
    PairedMeansInSync(config, attachments, statuses, picks, matched);
    r := if |matched| == |attachments| then Ok(statuses) else Err(NotInConfig);
  }
}
