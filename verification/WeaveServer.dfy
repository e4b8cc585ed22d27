/**
 The Weave server as its single client sees it. Any call may fail, and a failed call
 leaves the server as it was; phases may change between a call and the next listing. A
 `healthy` server answers every call, keeps its phases, and creates objects Ready; whether
 it also deletes networks is a matter of its own, `drops`. The server assigns attachment ids it has never used,
   and refuses a network id it already has.
 */
module WeaveServer {
  import opened Wrappers
  import opened WeaveModel

  datatype Action =
    | AddNetwork(id: string, vni: nat)
    | DropNetwork(id: string)
    | AddAttachment(spec: Spec)
    | DropAttachment(id: string)

  /** A call that asks for a change, with what the server held and had reported when it was made. */
  datatype Call = Call(action: Action, networks: seq<Network>, attachments: seq<Attachment>, ready: set<string>)

  predicate HasId(networks: seq<Network>, id: string) {
    exists n | n in networks :: n.id == Some(id)
  }

  function WithoutNetwork(networks: seq<Network>, id: string): (r: seq<Network>)
    ensures forall n :: n in r <==> n in networks && n.id != Some(id)
  {
    if networks == [] then []
    else (if networks[0].id == Some(id) then [] else [networks[0]]) + WithoutNetwork(networks[1..], id)
  }

  function WithoutAttachment(attachments: seq<Attachment>, id: string): (r: seq<Attachment>)
    ensures forall a :: a in r <==> a in attachments && a.id != Some(id)
  {
    if attachments == [] then []
    else (if attachments[0].id == Some(id) then [] else [attachments[0]]) + WithoutAttachment(attachments[1..], id)
  }

  predicate ReportsReady(n: Network) {
    n.state.Some? && n.state.value.phase == Ready
  }

  function ReadyIds(networks: seq<Network>): set<string> {
    set n | n in networks && n.id.Some? && ReportsReady(n) :: n.id.value
  }

  /** Two listings of the same networks; only phases may differ. */
  predicate SameNetworks(a: seq<Network>, b: seq<Network>) {
    |a| == |b| && forall i | 0 <= i < |a| :: a[i].id == b[i].id && a[i].vni == b[i].vni
  }

  predicate SameAttachments(a: seq<Attachment>, b: seq<Attachment>) {
    |a| == |b| && forall i | 0 <= i < |a| ::
      a[i].id == b[i].id && a[i].spec == b[i].spec && a[i].revision == b[i].revision
  }

  predicate IdsUsed(attachments: seq<Attachment>, used: seq<string>) {
    forall a | a in attachments && a.id.Some? :: a.id.value in used
  }

  /** An id longer than any used one. */
  function UnusedId(used: seq<string>): (id: string)
    ensures id != "" && forall u | u in used :: |u| < |id|
  {
    if used == [] then "a"
    else
      var id := UnusedId(used[1..]);
      if |used[0]| < |id| then id else used[0] + "a"
  }

  /** What the server holds and has reported, and the calls it has had. */
  datatype View = View(networks: seq<Network>, attachments: seq<Attachment>, ready: set<string>, log: seq<Call>)

  class Server {
    const healthy: bool
    const drops: bool
    var networks: seq<Network>
    var attachments: seq<Attachment>
    var used: seq<string>
    ghost var ready: set<string>
    ghost var log: seq<Call>

    ghost predicate Valid()
      reads this
    {
      IdsUsed(attachments, used)
    }

    ghost function Now(): View
      reads this
    {
      View(networks, attachments, ready, log)
    }

    method ListNetworks() returns (r: Result<seq<Network>, string>)
      modifies this`networks, this`ready
      ensures SameNetworks(old(networks), networks)
      ensures healthy ==> r.Ok? && networks == old(networks)
      ensures r.Ok? ==> r.value == networks && ready == ReadyIds(networks)
      ensures r.Err? ==> ready == old(ready)
    {
      var fail: bool := *;
      if fail && !healthy {
        return Err("list_virtual_networks");
      }
      var now: seq<Network> := *;
      if !healthy && SameNetworks(networks, now) {
        networks := now;
      }
      ready := ReadyIds(networks);
      return Ok(networks);
    }

    method ListAttachments() returns (r: Result<seq<Attachment>, string>)
      requires Valid()
      modifies this`attachments
      ensures Valid() && SameAttachments(old(attachments), attachments)
      ensures healthy ==> r.Ok? && attachments == old(attachments)
      ensures r.Ok? ==> r.value == attachments
    {
      var fail: bool := *;
      if fail && !healthy {
        return Err("list_virtual_network_attachments");
      }
      var now: seq<Attachment> := *;
      if !healthy && SameAttachments(attachments, now) {
        attachments := now;
      }
      return Ok(attachments);
    }

    /** The answer repeats the created network, unless the server leaves it out. */
    method CreateNetwork(id: string, vni: nat) returns (r: Result<Option<Network>, string>)
      modifies this`networks, this`ready, this`log
      ensures log == old(log) + [Call(AddNetwork(id, vni), old(networks), attachments, old(ready))]
      ensures r.Err? ==> networks == old(networks) && ready == old(ready)
      ensures r.Ok? ==> && !HasId(old(networks), id)
                        && |networks| == |old(networks)| + 1 && networks[..|old(networks)|] == old(networks)
                        && var n := networks[|old(networks)|];
                           && n.id == Some(id) && n.vni == Some(vni)
                           && (r.value.Some? ==> r.value.value == n)
                           && ready == old(ready) + (if r.value.Some? && ReportsReady(n) then {id} else {})
      ensures healthy && !HasId(old(networks), id) ==> r.Ok? && r.value.Some? && ReportsReady(r.value.value)
    {
      log := log + [Call(AddNetwork(id, vni), networks, attachments, ready)];
      var fail: bool := *;
      if (fail && !healthy) || HasId(networks, id) {
        return Err("create_virtual_network");
      }
      var state: Option<State> := *;
      var shown: bool := *;
      if healthy {
        state, shown := Some(State(Ready, "")), true;
      }
      var n := Network(Some(id), Some(vni), state);
      networks := networks + [n];
      if !shown {
        return Ok(None);
      }
      if ReportsReady(n) {
        ready := ready + {id};
      }
      return Ok(Some(n));
    }

    method DeleteNetwork(id: string) returns (r: Result<(), string>)
      modifies this`networks, this`log
      ensures log == old(log) + [Call(DropNetwork(id), old(networks), attachments, ready)]
      ensures networks == if r.Ok? then WithoutNetwork(old(networks), id) else old(networks)
      ensures healthy && drops ==> r.Ok?
      ensures !drops ==> r.Err?
    {
      log := log + [Call(DropNetwork(id), networks, attachments, ready)];
      var fail: bool := *;
      if !drops || (fail && !healthy) {
        return Err("delete_virtual_network");
      }
      networks := WithoutNetwork(networks, id);
      return Ok(());
    }

    /** The answer is the state of the created attachment, if the server sends one. */
    method CreateAttachment(revision: string, spec: Spec) returns (r: Result<Option<State>, string>)
      requires Valid()
      modifies this`attachments, this`used, this`log
      ensures Valid() && old(used) <= used
      ensures log == old(log) + [Call(AddAttachment(spec), networks, old(attachments), ready)]
      ensures r.Err? ==> attachments == old(attachments)
      ensures r.Ok? ==> && |attachments| == |old(attachments)| + 1
                        && attachments[..|old(attachments)|] == old(attachments)
                        && var a := attachments[|old(attachments)|];
                           && a.id.Some? && a.id.value != "" && a.id.value !in old(used)
                           && a.spec == Some(spec) && a.revision == Some(revision)
                           && (healthy ==> a.state == r.value)
      ensures healthy ==> r == Ok(Some(State(Ready, "")))
    {
      log := log + [Call(AddAttachment(spec), networks, attachments, ready)];
      var fail: bool := *;
      if fail && !healthy {
        return Err("create_virtual_network_attachment");
      }
      var id: string := *;
      if id == "" || id in used {
        id := UnusedId(used);
      }
      var state: Option<State> := *;
      var answer: Option<State> := *;
      if healthy {
        state := Some(State(Ready, ""));
        answer := state;
      }
      attachments := attachments + [Attachment(Some(id), Some(revision), Some(spec), state)];
      used := used + [id];
      return Ok(answer);
    }

    method DeleteAttachment(id: string) returns (r: Result<(), string>)
      requires Valid()
      modifies this`attachments, this`log
      ensures Valid()
      ensures log == old(log) + [Call(DropAttachment(id), networks, old(attachments), ready)]
      ensures attachments == if r.Ok? then WithoutAttachment(old(attachments), id) else old(attachments)
      ensures healthy ==> r.Ok?
    {
      log := log + [Call(DropAttachment(id), networks, attachments, ready)];
      var fail: bool := *;
      if fail && !healthy {
        return Err("delete_virtual_network_attachment");
      }
      attachments := WithoutAttachment(attachments, id);
      return Ok(());
    }
  }
}
