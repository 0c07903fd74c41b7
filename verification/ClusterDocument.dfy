/** The cluster document (crates/djbod-core/src/cluster.rs) and every way the
    administration commands derive its successor
    (crates/djbod-client/src/admin.rs, crates/djbod-node/src/node.rs). */
module ClusterDocument {
  import opened Prelude

  type NodeId = nat
  type DeviceId = nat

  datatype NodeState = Active | Removed

  datatype NodeEntry = NodeEntry(id: NodeId, addresses: seq<string>, alias: Option<string>, state: NodeState)

  datatype DeviceState = InService | Draining | Retired

  datatype DeviceEntry = DeviceEntry(id: DeviceId, node: NodeId, state: DeviceState, alias: Option<string>)

  datatype Transport = Plain | TlsOptional | Tls

  datatype Parameters = Parameters(
    name: Option<string>, k: nat, m: nat, blockSize: nat,
    maxKeyBytes: nat, maxObjectBytes: nat, maxUserMetadataBytes: nat, transport: Transport)

  datatype Document = Document(
    version: nat, clusterId: nat, parameters: Parameters,
    nodes: seq<NodeEntry>, devices: seq<DeviceEntry>)

  const MIN_BLOCK_SIZE_BYTES := 64 * 1024
  const MAX_BLOCK_SIZE_BYTES := 64 * 1024 * 1024
  const LIMIT_MAX_KEY_BYTES := 1024 * 1024
  const LIMIT_MAX_USER_METADATA_BYTES := 48 * 1024 * 1024

  // ------------------------------------------------------------ validity

  predicate ValidParameters(p: Parameters) {
    && 1 <= p.k <= MAX_DATA_SHARDS
    && p.m <= MAX_PARITY_SHARDS
    && p.blockSize % 4096 == 0
    && MIN_BLOCK_SIZE_BYTES <= p.blockSize <= MAX_BLOCK_SIZE_BYTES
    && 1 <= p.maxKeyBytes <= LIMIT_MAX_KEY_BYTES
    && 1 <= p.maxObjectBytes
    && 1 <= p.maxUserMetadataBytes <= LIMIT_MAX_USER_METADATA_BYTES
  }

  function NodeIds(nodes: seq<NodeEntry>): (ids: seq<NodeId>)
    ensures |ids| == |nodes|
  {
    seq(|nodes|, i requires 0 <= i < |nodes| => nodes[i].id)
  }

  function DeviceIds(devices: seq<DeviceEntry>): (ids: seq<DeviceId>)
    ensures |ids| == |devices|
  {
    seq(|devices|, i requires 0 <= i < |devices| => devices[i].id)
  }

  /** The addresses that count against each other: those of active nodes. */
  function LiveAddresses(nodes: seq<NodeEntry>): seq<string> {
    if nodes == [] then []
    else LiveAddresses(nodes[..|nodes| - 1]) + NodeAddresses(nodes[|nodes| - 1])
  }

  function NodeAddresses(node: NodeEntry): seq<string> {
    if node.state.Active? then node.addresses else []
  }

  function LiveNodeLabels(nodes: seq<NodeEntry>): seq<string> {
    if nodes == [] then []
    else LiveNodeLabels(nodes[..|nodes| - 1]) + NodeLabel(nodes[|nodes| - 1])
  }

  function NodeLabel(node: NodeEntry): seq<string> {
    if node.state.Active? && node.alias.Some? then [node.alias.value] else []
  }

  function DeviceLabels(devices: seq<DeviceEntry>): seq<string> {
    if devices == [] then []
    else DeviceLabels(devices[..|devices| - 1]) + DeviceLabel(devices[|devices| - 1])
  }

  function DeviceLabel(device: DeviceEntry): seq<string> {
    if device.alias.Some? then [device.alias.value] else []
  }

  /** What `validate` accepts, said of the document as a whole. */
  ghost predicate Valid(d: Document) {
    && d.clusterId != 0
    && ValidParameters(d.parameters)
    && Distinct(NodeIds(d.nodes))
    && (forall n <- d.nodes :: n.addresses != [])
    && Distinct(LiveAddresses(d.nodes))
    && Distinct(DeviceIds(d.devices))
    && (forall e <- d.devices :: e.node in NodeIds(d.nodes))
    && Distinct(DeviceLabels(d.devices))
    && Distinct(LiveNodeLabels(d.nodes))
  }

  lemma DistinctPrefix<T>(s: seq<T>, t: seq<T>)
    requires Distinct(s + t)
    ensures Distinct(s)
  {
    forall i, j | 0 <= i < j < |s| ensures s[i] != s[j] {
      assert (s + t)[i] == s[i] && (s + t)[j] == s[j];
    }
  }

  /** Add `items` to a seen-list one by one, stopping at a repetition. */
  method AddUnique<T(==)>(seen: seq<T>, items: seq<T>) returns (ok: bool, grown: seq<T>)
    requires Distinct(seen)
    ensures ok <==> Distinct(seen + items)
    ensures ok ==> grown == seen + items
  {
    grown := seen;
    for i := 0 to |items|
      invariant grown == seen + items[..i]
      invariant Distinct(grown)
    {
      DistinctSnoc(grown, items[i]);
      assert grown + [items[i]] == seen + items[..i + 1];
      if items[i] in grown {
        if Distinct(seen + items) {
          assert seen + items == (seen + items[..i + 1]) + items[i + 1..];
          DistinctPrefix(seen + items[..i + 1], items[i + 1..]);
        }
        return false, grown;
      }
      grown := grown + [items[i]];
    }
    assert items[..|items|] == items;
    return true, grown;
  }

  lemma LiveAddressesPrefix(nodes: seq<NodeEntry>, i: nat)
    requires i <= |nodes|
    requires Distinct(LiveAddresses(nodes))
    ensures Distinct(LiveAddresses(nodes[..i]))
    decreases |nodes|
  {
    if i < |nodes| {
      var shorter := nodes[..|nodes| - 1];
      DistinctPrefix(LiveAddresses(shorter), NodeAddresses(nodes[|nodes| - 1]));
      LiveAddressesPrefix(shorter, i);
      assert shorter[..i] == nodes[..i];
    } else {
      assert nodes[..i] == nodes;
    }
  }

  /** The address loop of `validate`: every node lists an address and no
      address is listed twice among active nodes. */
  method CheckAddresses(nodes: seq<NodeEntry>) returns (ok: bool)
    ensures ok <==> (forall n <- nodes :: n.addresses != []) && Distinct(LiveAddresses(nodes))
  {
    var seen: seq<string> := [];
    for i := 0 to |nodes|
      invariant seen == LiveAddresses(nodes[..i])
      invariant Distinct(seen)
      invariant forall j :: 0 <= j < i ==> nodes[j].addresses != []
    {
      if nodes[i].addresses == [] {
        return false;
      }
      assert nodes[..i + 1][..i] == nodes[..i];
      if nodes[i].state.Active? {
        var added;
        added, seen := AddUnique(seen, nodes[i].addresses);
        if !added {
          if Distinct(LiveAddresses(nodes)) {
            LiveAddressesPrefix(nodes, i + 1);
          }
          return false;
        }
      }
    }
    assert nodes[..|nodes|] == nodes;
    return true;
  }

  /** `validate`: the seen-list loops accept exactly the valid documents. */
  method Validate(d: Document) returns (ok: bool)
    ensures ok <==> Valid(d)
  {
    if d.clusterId == 0 || !ValidParameters(d.parameters) {
      return false;
    }
    var nodesOk, nodeIds := AddUnique([], NodeIds(d.nodes));
    var addressesOk := CheckAddresses(d.nodes);
    var devicesOk, _ := AddUnique([], DeviceIds(d.devices));
    if !nodesOk || !addressesOk || !devicesOk {
      return false;
    }
    for i := 0 to |d.devices|
      invariant forall j :: 0 <= j < i ==> d.devices[j].node in NodeIds(d.nodes)
    {
      if d.devices[i].node !in nodeIds {
        return false;
      }
    }
    var deviceLabelsOk, _ := AddUnique([], DeviceLabels(d.devices));
    var nodeLabelsOk, _ := AddUnique([], LiveNodeLabels(d.nodes));
    assert [] + NodeIds(d.nodes) == NodeIds(d.nodes) && [] + DeviceIds(d.devices) == DeviceIds(d.devices);
    assert [] + DeviceLabels(d.devices) == DeviceLabels(d.devices);
    assert [] + LiveNodeLabels(d.nodes) == LiveNodeLabels(d.nodes);
    return deviceLabelsOk && nodeLabelsOk;
  }

  // ----------------------------------------------------------- membership

  /** The members in document order: asked, served and proposed to. */
  function ActiveIds(nodes: seq<NodeEntry>): seq<NodeId> {
    if nodes == [] then []
    else if nodes[0].state.Active? then [nodes[0].id] + ActiveIds(nodes[1..])
    else ActiveIds(nodes[1..])
  }

  lemma {:induction false} ActiveIdsMembers(nodes: seq<NodeEntry>, n: NodeId)
    ensures n in ActiveIds(nodes) <==> exists e :: e in nodes && e.id == n && e.state.Active?
  {
    if nodes != [] {
      ActiveIdsMembers(nodes[1..], n);
      assert nodes == [nodes[0]] + nodes[1..];
    }
  }

  predicate HasActive(d: Document) {
    ActiveIds(d.nodes) != []
  }

  function First(d: Document): NodeId
    requires HasActive(d)
  {
    ActiveIds(d.nodes)[0]
  }

  function Without(ids: seq<NodeId>, skip: Option<NodeId>): seq<NodeId> {
    if ids == [] then []
    else if skip == Some(ids[0]) then Without(ids[1..], skip)
    else [ids[0]] + Without(ids[1..], skip)
  }

  lemma {:induction false} WithoutMembers(ids: seq<NodeId>, skip: Option<NodeId>, n: NodeId)
    ensures n in Without(ids, skip) <==> n in ids && skip != Some(n)
  {
    if ids != [] {
      WithoutMembers(ids[1..], skip, n);
      assert ids == [ids[0]] + ids[1..];
    }
  }

  lemma {:induction false} WithoutNone(ids: seq<NodeId>)
    ensures Without(ids, None) == ids
  {
    if ids != [] {
      WithoutNone(ids[1..]);
    }
  }

  /** The nodes a proposal asks and then applies to, in order. */
  function Targets(d: Document, skip: Option<NodeId>): seq<NodeId> {
    Without(ActiveIds(d.nodes), skip)
  }

  lemma FirstTarget(d: Document, skip: Option<NodeId>)
    requires HasActive(d) && skip != Some(First(d))
    ensures Targets(d, skip) != [] && Targets(d, skip)[0] == First(d)
  {
  }

  predicate ListedAs(d: Document, n: NodeId, state: NodeState) {
    exists e :: e in d.nodes && e.id == n && e.state == state
  }

  // ------------------------------------------------------------- changes

  /** One administration command, as the document it builds. */
  datatype Change =
    | SetParameters(parameters: Parameters)
    | SetDeviceState(device: DeviceId, state: DeviceState)
    | SetDeviceLabel(device: DeviceId, alias: Option<string>)
    | SetNodeLabel(node: NodeId, alias: Option<string>)
    | SetAddresses(node: NodeId, addresses: seq<string>)
    | RemoveNode(node: NodeId)
    | AddNode(node: NodeId, address: string, devices: seq<DeviceId>)

  function MapNodes(nodes: seq<NodeEntry>, f: NodeEntry -> NodeEntry): (r: seq<NodeEntry>)
    ensures |r| == |nodes| && forall i :: 0 <= i < |r| ==> r[i] == f(nodes[i])
  {
    seq(|nodes|, i requires 0 <= i < |nodes| => f(nodes[i]))
  }

  function MapDevices(devices: seq<DeviceEntry>, f: DeviceEntry -> DeviceEntry): (r: seq<DeviceEntry>)
    ensures |r| == |devices| && forall i :: 0 <= i < |r| ==> r[i] == f(devices[i])
  {
    seq(|devices|, i requires 0 <= i < |devices| => f(devices[i]))
  }

  function Entomb(node: NodeId): NodeEntry -> NodeEntry {
    (e: NodeEntry) => if e.id == node then e.(state := Removed) else e
  }

  function RetireDevicesOf(node: NodeId): DeviceEntry -> DeviceEntry {
    (e: DeviceEntry) => if e.node == node then e.(state := Retired) else e
  }

  /** `document_with_node_removed`. */
  function NodeRemoved(d: Document, node: NodeId): Document {
    d.(version := d.version + 1,
       nodes := MapNodes(d.nodes, Entomb(node)),
       devices := MapDevices(d.devices, RetireDevicesOf(node)))
  }

  /** The devices of `added` the document does not list yet, appended. */
  function WithDevices(devices: seq<DeviceEntry>, node: NodeId, added: seq<DeviceId>): seq<DeviceEntry>
    decreases |added|
  {
    if added == [] then devices
    else if added[0] in DeviceIds(devices) then WithDevices(devices, node, added[1..])
    else WithDevices(devices + [DeviceEntry(added[0], node, InService, None)], node, added[1..])
  }

  /** `document_with_this_node`. */
  function NodeAdded(d: Document, node: NodeId, address: string, devices: seq<DeviceId>): Document {
    d.(version := d.version + 1,
       nodes := if node in NodeIds(d.nodes) then d.nodes
                else d.nodes + [NodeEntry(node, [address], None, Active)],
       devices := WithDevices(d.devices, node, devices))
  }

  /** The successor a command builds from `d`, or nothing when it refuses. */
  function Successor(d: Document, change: Change): (next: Option<Document>)
    ensures next.None? <==> change.RemoveNode? && (change.node !in ActiveIds(d.nodes) || |ActiveIds(d.nodes)| == 1)
  {
    match change
    case SetParameters(p) =>
      Some(d.(version := d.version + 1, parameters := p))
    case SetDeviceState(device, state) =>
      Some(d.(version := d.version + 1,
              devices := MapDevices(d.devices, (e: DeviceEntry) => if e.id == device then e.(state := state) else e)))
    case SetDeviceLabel(device, alias) =>
      Some(d.(version := d.version + 1,
              devices := MapDevices(d.devices, (e: DeviceEntry) => if e.id == device then e.(alias := alias) else e)))
    case SetNodeLabel(node, alias) =>
      Some(d.(version := d.version + 1,
              nodes := MapNodes(d.nodes, (e: NodeEntry) => if e.id == node then e.(alias := alias) else e)))
    case SetAddresses(node, addresses) =>
      Some(d.(version := d.version + 1,
              nodes := MapNodes(d.nodes, (e: NodeEntry) => if e.id == node then e.(addresses := addresses) else e)))
    case RemoveNode(node) =>
      ActiveIdsMembers(d.nodes, node);
      if ListedAs(d, node, Active) && |ActiveIds(d.nodes)| != 1 then Some(NodeRemoved(d, node)) else None
    case AddNode(node, address, devices) =>
      Some(NodeAdded(d, node, address, devices))
  }

  // ------------------------------------------------- what a command changes

  /** Device `i` differs at most in state, and has `state` if it is `changed`. */
  ghost predicate StatesSet(d: Document, next: Document, changed: DeviceEntry -> bool, state: DeviceState) {
    && |next.devices| == |d.devices|
    && forall i :: 0 <= i < |d.devices| ==>
         && next.devices[i].(state := d.devices[i].state) == d.devices[i]
         && next.devices[i].state == if changed(d.devices[i]) then state else d.devices[i].state
  }

  ghost predicate DeviceLabelSet(d: Document, next: Document, device: DeviceId, alias: Option<string>) {
    && |next.devices| == |d.devices|
    && forall i :: 0 <= i < |d.devices| ==>
         && next.devices[i].(alias := d.devices[i].alias) == d.devices[i]
         && next.devices[i].alias == if d.devices[i].id == device then alias else d.devices[i].alias
  }

  ghost predicate NodeEntrySet(d: Document, next: Document, change: Change) {
    && |next.nodes| == |d.nodes|
    && forall i :: 0 <= i < |d.nodes| ==>
         var was, now := d.nodes[i], next.nodes[i];
         match change
         case SetNodeLabel(node, alias) =>
           now.(alias := was.alias) == was && now.alias == if was.id == node then alias else was.alias
         case SetAddresses(node, addresses) =>
           now.(addresses := was.addresses) == was && now.addresses == if was.id == node then addresses else was.addresses
         case RemoveNode(node) =>
           now.(state := was.state) == was && (now.state == Removed <==> was.id == node || was.state == Removed)
         case _ => now == was
  }

  /** The devices listed before stay as they were; behind them each of `added` that
      was not listed, once, in service on the node. */
  ghost predicate DevicesJoined(was: seq<DeviceEntry>, now: seq<DeviceEntry>, node: NodeId, added: seq<DeviceId>) {
    && was <= now
    && (forall i :: |was| <= i < |now| ==>
          now[i].id in added && now[i].id !in DeviceIds(now[..i]) && now[i] == DeviceEntry(now[i].id, node, InService, None))
    && (forall id <- added :: id in DeviceIds(now))
  }

  /** The node is listed, as it was or as a new active entry at the end. */
  ghost predicate NodeJoined(was: seq<NodeEntry>, now: seq<NodeEntry>, node: NodeId, address: string) {
    if node in NodeIds(was) then now == was else now == was + [NodeEntry(node, [address], None, Active)]
  }

  /** Everything a command changes, entry by entry. */
  ghost predicate Edited(d: Document, change: Change, next: Document) {
    && next.(parameters := d.parameters, nodes := d.nodes, devices := d.devices, version := d.version) == d
    && next.version == d.version + 1
    && next.parameters == (if change.SetParameters? then change.parameters else d.parameters)
    && (if change.AddNode? then NodeJoined(d.nodes, next.nodes, change.node, change.address) else NodeEntrySet(d, next, change))
    && match change
       case SetDeviceState(device, state) => StatesSet(d, next, (e: DeviceEntry) => e.id == device, state)
       case SetDeviceLabel(device, alias) => DeviceLabelSet(d, next, device, alias)
       case RemoveNode(node) => StatesSet(d, next, (e: DeviceEntry) => e.node == node, Retired)
       case AddNode(node, _, devices) => DevicesJoined(d.devices, next.devices, node, devices)
       case _ => next.devices == d.devices
  }

  lemma SuccessorEdits(d: Document, change: Change)
    requires Successor(d, change).Some?
    ensures Edited(d, change, Successor(d, change).value)
  {
    if change.AddNode? {
      JoinedInOrder(d.devices, change.node, change.devices);
    }
  }

  lemma {:induction false} JoinedInOrder(devices: seq<DeviceEntry>, node: NodeId, added: seq<DeviceId>)
    ensures DevicesJoined(devices, WithDevices(devices, node, added), node, added)
    decreases |added|
  {
    if added != [] {
      var grown := if added[0] in DeviceIds(devices) then devices else devices + [DeviceEntry(added[0], node, InService, None)];
      JoinedInOrder(grown, node, added[1..]);
      JoinedOneMore(devices, grown, WithDevices(devices, node, added), node, added);
    }
  }

  lemma JoinedOneMore(devices: seq<DeviceEntry>, grown: seq<DeviceEntry>, now: seq<DeviceEntry>, node: NodeId, added: seq<DeviceId>)
    requires added != [] && DevicesJoined(grown, now, node, added[1..])
    requires grown == if added[0] in DeviceIds(devices) then devices else devices + [DeviceEntry(added[0], node, InService, None)]
    ensures DevicesJoined(devices, now, node, added)
  {
    assert added == [added[0]] + added[1..];
    if added[0] !in DeviceIds(devices) {
      assert now[|devices|] == grown[|devices|] && now[..|devices|] == devices;
      assert DeviceIds(now)[|devices|] == added[0];
    } else {
      var i :| 0 <= i < |devices| && DeviceIds(devices)[i] == added[0];
      assert DeviceIds(now)[i] == now[i].id == devices[i].id;
    }
  }

  /** `later` may follow `earlier`: its node list only grew at the end, and
      every tombstone is still a tombstone. */
  ghost predicate Descends(earlier: Document, later: Document) {
    && earlier.clusterId == later.clusterId
    && |earlier.nodes| <= |later.nodes|
    && (forall i :: 0 <= i < |earlier.nodes| ==>
          && later.nodes[i].id == earlier.nodes[i].id
          && (earlier.nodes[i].state.Removed? ==> later.nodes[i].state.Removed?))
  }

  lemma SuccessorDescends(d: Document, change: Change)
    requires Successor(d, change).Some?
    ensures Descends(d, Successor(d, change).value)
    ensures Successor(d, change).value.version == d.version + 1
  {
  }

  /** The members keep their order when only their state, label or addresses
      change; entombing one takes it out of the order and nothing else. */
  lemma {:induction false} ActiveAfterMap(nodes: seq<NodeEntry>, f: NodeEntry -> NodeEntry)
    requires forall e :: f(e).id == e.id && f(e).state == e.state
    ensures ActiveIds(MapNodes(nodes, f)) == ActiveIds(nodes)
  {
    if nodes != [] {
      ActiveAfterMap(nodes[1..], f);
      assert MapNodes(nodes, f)[1..] == MapNodes(nodes[1..], f);
    }
  }

  lemma {:induction false} ActiveAfterRemoval(nodes: seq<NodeEntry>, node: NodeId)
    ensures ActiveIds(MapNodes(nodes, Entomb(node))) == Without(ActiveIds(nodes), Some(node))
  {
    if nodes != [] {
      ActiveAfterRemoval(nodes[1..], node);
      assert MapNodes(nodes, Entomb(node))[1..] == MapNodes(nodes[1..], Entomb(node));
      var rest := ActiveIds(nodes[1..]);
      if nodes[0].state.Active? {
        assert ([nodes[0].id] + rest)[1..] == rest;
      }
    }
  }

  lemma {:induction false} ActiveAfterAppend(nodes: seq<NodeEntry>, e: NodeEntry)
    ensures ActiveIds(nodes + [e]) == ActiveIds(nodes) + (if e.state.Active? then [e.id] else [])
  {
    if nodes == [] {
      assert [e][1..] == [];
    } else {
      ActiveAfterAppend(nodes[1..], e);
      assert (nodes + [e])[1..] == nodes[1..] + [e];
    }
  }

  lemma {:induction false} ActiveIdsDistinct(nodes: seq<NodeEntry>)
    requires Distinct(NodeIds(nodes))
    ensures Distinct(ActiveIds(nodes))
  {
    if nodes != [] {
      var ids, tail := NodeIds(nodes), NodeIds(nodes[1..]);
      forall i, j | 0 <= i < j < |tail| ensures tail[i] != tail[j] {
        assert tail[i] == ids[i + 1] && tail[j] == ids[j + 1];
      }
      ActiveIdsDistinct(nodes[1..]);
      ActiveIdsMembers(nodes[1..], nodes[0].id);
      forall e | e in nodes[1..] ensures e.id != nodes[0].id {
        var j :| 0 <= j < |nodes[1..]| && nodes[1..][j] == e;
        assert ids[0] == nodes[0].id && ids[j + 1] == e.id;
      }
    }
  }

  lemma {:induction false} WithoutLeavesOthers(ids: seq<NodeId>, node: NodeId)
    requires Distinct(ids) && |ids| >= 2
    ensures Without(ids, Some(node)) != []
  {
    WithoutMembers(ids, Some(node), if ids[0] != node then ids[0] else ids[1]);
  }

  /** No command leaves a cluster without members: the last node cannot be
      removed, so every successor has a first member to serialise on. */
  lemma SuccessorHasActive(d: Document, change: Change)
    requires Valid(d) && HasActive(d) && Successor(d, change).Some?
    ensures HasActive(Successor(d, change).value)
  {
    match change
    case SetParameters(_) =>
    case SetDeviceState(_, _) =>
    case SetDeviceLabel(_, _) =>
    case SetNodeLabel(node, alias) =>
      ActiveAfterMap(d.nodes, (e: NodeEntry) => if e.id == node then e.(alias := alias) else e);
    case SetAddresses(node, addresses) =>
      ActiveAfterMap(d.nodes, (e: NodeEntry) => if e.id == node then e.(addresses := addresses) else e);
    case RemoveNode(node) =>
      ActiveAfterRemoval(d.nodes, node);
      ActiveIdsDistinct(d.nodes);
      WithoutLeavesOthers(ActiveIds(d.nodes), node);
    case AddNode(node, address, devices) =>
      ActiveAfterAppend(d.nodes, NodeEntry(node, [address], None, Active));
  }

  // ------------------------------------------------ removal keeps validity

  /** The members come in the order of the document. */
  lemma {:induction false} ActiveInOrder(nodes: seq<NodeEntry>)
    ensures Subsequence(ActiveIds(nodes), NodeIds(nodes))
  {
    if nodes != [] {
      var before, last := nodes[..|nodes| - 1], nodes[|nodes| - 1];
      assert nodes == before + [last];
      ActiveInOrder(before);
      ActiveAfterAppend(before, last);
      OneMoreInOrder(ActiveIds(before), NodeIds(before), last.id, ActiveIds(nodes), NodeIds(nodes));
    }
  }

  lemma OneMoreInOrder(t: seq<NodeId>, s: seq<NodeId>, x: NodeId, t2: seq<NodeId>, s2: seq<NodeId>)
    requires Subsequence(t, s) && (t2 == t || t2 == t + [] || t2 == t + [x]) && s2 == s + [x]
    ensures Subsequence(t2, s2)
  {
    SubsequenceAppend(t, s, [x]);
  }

  lemma {:induction false} RemovalThinsLists(nodes: seq<NodeEntry>, node: NodeId)
    ensures var after := MapNodes(nodes, Entomb(node));
            && Subsequence(LiveAddresses(after), LiveAddresses(nodes))
            && Subsequence(LiveNodeLabels(after), LiveNodeLabels(nodes))
  {
    if nodes != [] {
      var shorter, last := nodes[..|nodes| - 1], nodes[|nodes| - 1];
      var after := MapNodes(nodes, Entomb(node));
      RemovalThinsLists(shorter, node);
      assert after[..|after| - 1] == MapNodes(shorter, Entomb(node));
      assert after[|after| - 1] == Entomb(node)(last);
      SubsequenceAppend(LiveAddresses(after[..|after| - 1]), LiveAddresses(shorter), NodeAddresses(last));
      SubsequenceAppend(LiveNodeLabels(after[..|after| - 1]), LiveNodeLabels(shorter), NodeLabel(last));
      assert NodeAddresses(after[|after| - 1]) == [] || NodeAddresses(after[|after| - 1]) == NodeAddresses(last);
      assert NodeLabel(after[|after| - 1]) == [] || NodeLabel(after[|after| - 1]) == NodeLabel(last);
      assert LiveAddresses(after[..|after| - 1]) + [] == LiveAddresses(after[..|after| - 1]);
      assert LiveNodeLabels(after[..|after| - 1]) + [] == LiveNodeLabels(after[..|after| - 1]);
    }
  }

  lemma {:induction false} RetiringKeepsLabels(devices: seq<DeviceEntry>, node: NodeId)
    ensures DeviceLabels(MapDevices(devices, RetireDevicesOf(node))) == DeviceLabels(devices)
  {
    if devices != [] {
      var shorter := devices[..|devices| - 1];
      RetiringKeepsLabels(shorter, node);
      var after := MapDevices(devices, RetireDevicesOf(node));
      assert after[..|after| - 1] == MapDevices(shorter, RetireDevicesOf(node));
    }
  }

  /** Removing a node from a valid document gives a valid document: the
      tombstone's addresses and label stop counting, nothing else moves. */
  lemma RemovalKeepsNodes(d: Document, node: NodeId)
    requires Valid(d)
    ensures var after := NodeRemoved(d, node);
            && NodeIds(after.nodes) == NodeIds(d.nodes)
            && (forall n <- after.nodes :: n.addresses != [])
            && Distinct(LiveAddresses(after.nodes)) && Distinct(LiveNodeLabels(after.nodes))
  {
    var after := NodeRemoved(d, node);
    RemovalThinsLists(d.nodes, node);
    SubsequenceDistinct(LiveAddresses(after.nodes), LiveAddresses(d.nodes));
    SubsequenceDistinct(LiveNodeLabels(after.nodes), LiveNodeLabels(d.nodes));
    forall n | n in after.nodes ensures n.addresses != [] {
      var i :| 0 <= i < |after.nodes| && after.nodes[i] == n;
      assert d.nodes[i].addresses == n.addresses && d.nodes[i] in d.nodes;
    }
  }

  lemma RemovalKeepsDevices(d: Document, node: NodeId)
    requires Valid(d)
    ensures var after := NodeRemoved(d, node);
            && DeviceIds(after.devices) == DeviceIds(d.devices)
            && (forall e <- after.devices :: e.node in NodeIds(d.nodes))
            && Distinct(DeviceLabels(after.devices))
  {
    var after := NodeRemoved(d, node);
    RetiringKeepsLabels(d.devices, node);
    forall e | e in after.devices ensures e.node in NodeIds(d.nodes) {
      var i :| 0 <= i < |after.devices| && after.devices[i] == e;
      assert d.devices[i].node == e.node && d.devices[i] in d.devices;
    }
  }

  lemma RemovalKeepsValidity(d: Document, node: NodeId)
    requires Valid(d)
    ensures Valid(NodeRemoved(d, node))
  {
    RemovalKeepsNodes(d, node);
    RemovalKeepsDevices(d, node);
  }

  /** The loop over the nodes of the clone. */
  method EntombNode(current: seq<NodeEntry>, node: NodeId) returns (nodes: seq<NodeEntry>)
    ensures nodes == MapNodes(current, Entomb(node))
  {
    nodes := current;
    for i := 0 to |nodes|
      invariant |nodes| == |current|
      invariant forall j :: 0 <= j < i ==> nodes[j] == Entomb(node)(current[j])
      invariant forall j :: i <= j < |nodes| ==> nodes[j] == current[j]
    {
      if nodes[i].id == node {
        nodes := nodes[i := nodes[i].(state := Removed)];
      }
    }
  }

  /** The loop over the devices of the clone. */
  method RetireDevices(current: seq<DeviceEntry>, node: NodeId) returns (devices: seq<DeviceEntry>)
    ensures devices == MapDevices(current, RetireDevicesOf(node))
  {
    devices := current;
    for i := 0 to |devices|
      invariant |devices| == |current|
      invariant forall j :: 0 <= j < i ==> devices[j] == RetireDevicesOf(node)(current[j])
      invariant forall j :: i <= j < |devices| ==> devices[j] == current[j]
    {
      if devices[i].node == node {
        devices := devices[i := devices[i].(state := Retired)];
      }
    }
  }

  /** `document_with_node_removed`, a clone edited in place. */
  method DocumentWithNodeRemoved(current: Document, node: NodeId) returns (next: Document)
    ensures next == NodeRemoved(current, node) && Edited(current, RemoveNode(node), next)
    ensures Valid(current) ==> Valid(next)
  {
    var nodes := EntombNode(current.nodes, node);
    var devices := RetireDevices(current.devices, node);
    next := current.(version := current.version + 1, nodes := nodes, devices := devices);
    if Valid(current) {
      RemovalKeepsValidity(current, node);
    }
  }

  /** The push loop of `document_with_this_node`. */
  method DocumentWithThisNode(current: Document, node: NodeId, address: string, devices: seq<DeviceId>)
    returns (next: Document)
    ensures next == NodeAdded(current, node, address, devices) && Edited(current, AddNode(node, address, devices), next)
    ensures forall e :: e in current.nodes && e.state.Removed? ==> e in next.nodes
  {
    var nodes := current.nodes;
    if node !in NodeIds(nodes) {
      nodes := nodes + [NodeEntry(node, [address], None, Active)];
    }
    var listed := current.devices;
    for i := 0 to |devices|
      invariant WithDevices(current.devices, node, devices) == WithDevices(listed, node, devices[i..])
    {
      if devices[i] !in DeviceIds(listed) {
        listed := listed + [DeviceEntry(devices[i], node, InService, None)];
      }
    }
    next := current.(version := current.version + 1, nodes := nodes, devices := listed);
    SuccessorEdits(current, AddNode(node, address, devices));
  }
}
