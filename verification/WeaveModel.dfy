/**
 The messages the agent exchanges with the Weave server, the Astra config it is given and
 the status it reports, with the pure parts of astra_weave.rs: naming, matching, and the
 attachment spec. Optional nested messages whose absence the code treats alike are one
 `Option` here; free-text messages are left out.
 */
module WeaveModel {
  import opened Wrappers
  import opened Text

  // ---- Names of virtual networks

  function Digit(d: nat): char
    requires d < 10
  {
    '0' + d as char
  }

  function Decimal(n: nat): (s: string)
    ensures s != [] && '0' <= s[0] <= '9'
  {
    if n < 10 then [Digit(n)] else Decimal(n / 10) + [Digit(n % 10)]
  }

  function IntText(i: int): string {
    if i < 0 then "-" + Decimal(-i) else Decimal(i)
  }

  function VnetName(vni: int): string {
    "astra-weave-vni-" + IntText(vni)
  }

  lemma {:induction false} DecimalInjective(m: nat, n: nat)
    ensures Decimal(m) == Decimal(n) ==> m == n
  {
    var s, t := Decimal(m), Decimal(n);
    assert s[|s| - 1] == Digit(m % 10) && t[|t| - 1] == Digit(n % 10);
    if m >= 10 && n >= 10 {
      assert s[..|s| - 1] == Decimal(m / 10) && t[..|t| - 1] == Decimal(n / 10);
      DecimalInjective(m / 10, n / 10);
    } else {
      assert m >= 10 ==> |s| > 1;
      assert n >= 10 ==> |t| > 1;
    }
  }

  lemma IntTextInjective(i: int, j: int)
    ensures IntText(i) == IntText(j) ==> i == j
  {
    if i < 0 && j < 0 {
      DecimalInjective(-i, -j);
      assert IntText(i)[1..] == Decimal(-i) && IntText(j)[1..] == Decimal(-j);
    } else if i >= 0 && j >= 0 {
      DecimalInjective(i, j);
    }
  }

  /** Different VNIs have different network names. */
  lemma VnetNameInjective(i: int, j: int)
    ensures VnetName(i) == VnetName(j) <==> i == j
  {
    SamePrefix("astra-weave-vni-", IntText(i), IntText(j));
    IntTextInjective(i, j);
  }

  // ---- The server's objects

  datatype Phase = Unspecified | Pending | Ready | Deleting | Failed | Unknown(code: int)

  datatype State = State(phase: Phase, reason: string)

  datatype Network = Network(id: Option<string>, vni: Option<nat>, state: Option<State>)

  datatype Spec = Spec(
    vnetId: string,
    nicId: string,
    kind: int,
    pf: Option<string>,
    vf: Option<(string, nat)>,
    ovn: Option<string>)

  datatype Attachment = Attachment(
    id: Option<string>,
    revision: Option<string>,
    spec: Option<Spec>,
    state: Option<State>)

  /** `none_if_empty` on an optional id. */
  function UsableId(id: Option<string>): Option<string> {
    if id == Some("") then None else id
  }

  // ---- The config and the reported status

  datatype Entry = Entry(
    mac: string,
    vni: nat,
    subnet: string,
    mask: int,
    kind: Option<int>,
    vfId: Option<int>,
    networkName: Option<string>,
    revision: string)

  type Config = seq<Entry>

  datatype AstraPhase = AUnspecified | APending | AReady | ADeleting | AError

  datatype AstraStatus = AstraStatus(phase: AstraPhase, reason: string)

  /** A status entry repeats its config entry; its VNI is the signed one. */
  datatype Status = Status(entry: Entry, vni: int, status: AstraStatus)

  const MAX_I32: nat := 0x7FFF_FFFF

  /** Rust's `as i32` on an unsigned 32-bit value. */
  function AsI32(v: nat): int {
    if v > MAX_I32 then v - 0x1_0000_0000 else v
  }

  function AstraPhaseOf(p: Phase): AstraPhase {
    match p
    case Ready => AReady
    case Failed => AError
    case Pending => APending
    case Deleting => ADeleting
    case _ => AUnspecified
  }

  predicate IsReady(s: Status) {
    s.status.phase.AReady?
  }

  function WithState(s: Status, state: State): Status {
    s.(status := AstraStatus(AstraPhaseOf(state.phase), state.reason))
  }

  const READY_STATUS: AstraStatus := AstraStatus(AReady, "")

  function OrMissing(state: Option<State>, reason: string): State {
    if state.Some? then state.value else State(Failed, reason)
  }

  // ---- Matching

  predicate HasKey(a: Attachment, mac: string, vnet: string) {
    a.spec.Some? && a.spec.value.nicId == mac && a.spec.value.vnetId == vnet
  }

  /** weave_ew_vpc_attachment_exists_in_astra_config */
  predicate Wanted(a: Attachment, entries: seq<Status>) {
    exists s | s in entries :: HasKey(a, s.entry.mac, VnetName(s.vni))
  }

  /** weave_ew_vpc_virtual_network_matches_astra_config */
  predicate InConfig(n: Network, entries: seq<Status>) {
    n.vni.Some? && n.vni.value != 0 && exists s | s in entries :: s.vni == n.vni.value
  }

  // ---- The attachment spec

  const PHYSICAL: int := 0
  const VIRTUAL: int := 1
  const OVN: int := 2

  const TYPE_PF: int := 1
  const TYPE_VF: int := 2
  const TYPE_OVN: int := 3

  function BuildSpec(s: Status): Result<Spec, State> {
    var e := s.entry;
    var base := Spec(VnetName(s.vni), e.mac, 0, None, None, None);
    if e.kind.None? then Err(State(Failed, "Missing Astra SpxAttachmentType"))
    else if e.kind.value == PHYSICAL then Ok(base.(kind := TYPE_PF, pf := Some(e.mac)))
    else if e.kind.value == VIRTUAL then
      if e.vfId.None? then Err(State(Failed, "Missing Astra virtual_function_id"))
      else if e.vfId.value < 0 then Err(State(Failed, "Invalid Astra virtual_function_id"))
      else Ok(base.(kind := TYPE_VF, vf := Some((e.mac, e.vfId.value))))
    else if e.kind.value == OVN then
      if UsableId(e.networkName).None? then Err(State(Failed, "Missing Astra OVN network_name"))
      else Ok(base.(kind := TYPE_OVN, ovn := e.networkName))
    else Err(State(Failed, "Unknown Astra SpxAttachmentType"))
  }

  /** The rules the server's schema puts on a spec. */
  predicate SchemaAllows(x: Spec) {
    && (x.kind == TYPE_PF <==> x.pf.Some?)
    && (x.kind == TYPE_VF <==> x.vf.Some?)
    && (x.kind == TYPE_OVN <==> x.ovn.Some?)
  }

  predicate Attachable(e: Entry) {
    || e.kind == Some(PHYSICAL)
    || (e.kind == Some(VIRTUAL) && e.vfId.Some? && e.vfId.value >= 0)
    || (e.kind == Some(OVN) && e.networkName.Some? && e.networkName.value != "")
  }

  /** The spec asks for the entry's kind of function, and for that very function. */
  predicate Carries(x: Spec, e: Entry) {
    && (e.kind == Some(PHYSICAL) ==> x.kind == 1 && x.pf == Some(e.mac) && x.vf.None? && x.ovn.None?)
    && (e.kind == Some(VIRTUAL) ==> && x.kind == 2 && x.pf.None? && x.ovn.None?
                                    && x.vf.Some? && x.vf.value.0 == e.mac && e.vfId == Some(x.vf.value.1))
    && (e.kind == Some(OVN) ==> x.kind == 3 && x.pf.None? && x.vf.None? && x.ovn.Some? && x.ovn == e.networkName)
  }

  /**
   A spec is built exactly for attachable entries. It names the entry's NIC and network, asks for
   the entry's function, and obeys the schema; otherwise the status says what is missing.
   */
  lemma BuildSpecIff(s: Status)
    ensures BuildSpec(s).Ok? <==> Attachable(s.entry)
    ensures BuildSpec(s).Ok? ==> var x := BuildSpec(s).value;
                                 && x.vnetId == VnetName(s.vni) && x.nicId == s.entry.mac
                                 && Carries(x, s.entry) && SchemaAllows(x)
    ensures BuildSpec(s).Err? ==>
              BuildSpec(s).error == State(Failed,
                if s.entry.kind.None? then "Missing Astra SpxAttachmentType"
                else if s.entry.kind == Some(VIRTUAL) && s.entry.vfId.None? then "Missing Astra virtual_function_id"
                else if s.entry.kind == Some(VIRTUAL) then "Invalid Astra virtual_function_id"
                else if s.entry.kind == Some(OVN) then "Missing Astra OVN network_name"
                else "Unknown Astra SpxAttachmentType")
  {
  }

  /** Two attachable entries ask for the same exactly if they agree in all that their kind uses. */
  lemma SameSpecIff(s: Status, t: Status)
    requires BuildSpec(s).Ok? && BuildSpec(t).Ok?
    ensures BuildSpec(s) == BuildSpec(t) <==>
              && s.entry.mac == t.entry.mac && s.vni == t.vni && s.entry.kind == t.entry.kind
              && (s.entry.kind == Some(VIRTUAL) ==> s.entry.vfId == t.entry.vfId)
              && (s.entry.kind == Some(OVN) ==> s.entry.networkName == t.entry.networkName)
  {
    VnetNameInjective(s.vni, t.vni);
  }

  // ---- What the texts and numbers say

  /** The number that decimal digits stand for. */
  function Value(digits: string): int {
    if digits == [] then 0 else 10 * Value(digits[..|digits| - 1]) + (digits[|digits| - 1] as int - '0' as int)
  }

  lemma {:induction false} DecimalReads(n: nat)
    ensures Value(Decimal(n)) == n && forall c | c in Decimal(n) :: '0' <= c <= '9'
  {
    if n < 10 {
      assert Decimal(n)[..0] == [];
    } else {
      DecimalReads(n / 10);
      assert Decimal(n)[..|Decimal(n)| - 1] == Decimal(n / 10);
    }
  }

  /** A network's name is the common prefix and the digits of its VNI. */
  lemma VnetNameReads(vni: nat)
    ensures VnetName(vni)[..16] == "astra-weave-vni-" && Value(VnetName(vni)[16..]) == vni
  {
    assert VnetName(vni)[16..] == Decimal(vni);
    DecimalReads(vni);
  }

  /** The signed number has the same 32 bits. */
  lemma AsI32Wraps(v: nat)
    requires v < 0x1_0000_0000
    ensures -0x8000_0000 <= AsI32(v) < 0x8000_0000 && (AsI32(v) == v || AsI32(v) + 0x1_0000_0000 == v)
  {
  }

  /** A reported phase tells every phase of the server from the others, but for the unspecified ones. */
  lemma StateIsShown(s: Status, state: State)
    ensures var r := WithState(s, state);
            && r.entry == s.entry && r.vni == s.vni && r.status.reason == state.reason
            && (IsReady(r) <==> state.phase == Ready)
            && (r.status.phase == AReady <==> state.phase == Ready)
            && (r.status.phase == APending <==> state.phase == Pending)
            && (r.status.phase == ADeleting <==> state.phase == Deleting)
            && (r.status.phase == AError <==> state.phase == Failed)
            && (r.status.phase == AUnspecified <==> state.phase == Unspecified || state.phase.Unknown?)
  {
  }
}
