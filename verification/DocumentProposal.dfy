/** `Node::apply_document`, `propose_skipping` and `sync` as the code runs
    them, each proved to be a run of the agreement machine. */
module DocumentProposal {
  import opened Prelude
  import opened ClusterDocument
  import opened DocumentAgreement

  datatype ApplyResult = Applied | Invalid | WrongCluster | NotNewer | TlsRequired

  /** A running node's copy of the document (crates/djbod-node/src/node.rs). */
  class ClusterNode {
    const id: NodeId
    const tlsReady: bool
    var document: Document
    var saved: Document
    var removed: bool

    constructor (id: NodeId, tlsReady: bool, document: Document)
      ensures this.id == id && this.tlsReady == tlsReady
      ensures this.document == document && this.saved == document && !removed
    {
      this.id, this.tlsReady := id, tlsReady;
      this.document, this.saved, this.removed := document, document, false;
    }

    /** Adopt a newer document of this cluster: saved before it is served,
        refused otherwise with nothing changed. */
    method ApplyDocument(proposed: Document) returns (r: ApplyResult)
      modifies this
      ensures r.Applied? <==>
                Valid(proposed) && Accepts(old(document), proposed) && (proposed.parameters.transport.Plain? || tlsReady)
      ensures r.Applied? ==> document == proposed && saved == proposed
      ensures r.Applied? ==> removed == (old(removed) || id !in ActiveIds(proposed.nodes))
      ensures !r.Applied? ==> document == old(document) && saved == old(saved) && removed == old(removed)
      ensures document.version >= old(document).version
      ensures r.NotNewer? ==> proposed.version <= old(document).version
    {
      var valid := Validate(proposed);
      if !valid {
        return Invalid;
      }
      if proposed.clusterId != document.clusterId {
        return WrongCluster;
      }
      if proposed.version <= document.version {
        return NotNewer;
      }
      if !proposed.parameters.transport.Plain? && !tlsReady {
        return TlsRequired;
      }
      saved := proposed;
      var stillActive := id in ActiveIds(proposed.nodes);
      document := proposed;
      if !stillActive {
        removed := true;
      }
      return Applied;
    }
  }

  datatype ProposeResult =
    | Proposed
    | InvalidDocument
    | Unreachable(node: NodeId)
    | StaleProposal(found: nat)
    | VersionsDiffer
    | Diverged(a: NodeId, b: NodeId)
    | Superseded(node: NodeId)
    | Partial(applied: seq<NodeId>, failed: NodeId)

  /** `check_same_content`: two nodes at one version must hold one document. */
  method CheckSameContent(nodes: seq<NodeId>, documents: seq<Document>) returns (r: Option<(NodeId, NodeId)>)
    requires |nodes| == |documents|
    ensures r.None? <==>
              forall i, j :: 0 <= i < j < |documents| && documents[i].version == documents[j].version ==>
                documents[i] == documents[j]
    ensures r.Some? ==>
              exists i, j :: 0 <= i < j < |documents| && r.value == (nodes[i], nodes[j])
                && documents[i].version == documents[j].version && documents[i] != documents[j]
  {
    for i := 0 to |documents|
      invariant forall a, b :: 0 <= a < b < i && documents[a].version == documents[b].version ==>
                  documents[a] == documents[b]
    {
      for j := 0 to i
        invariant forall a :: 0 <= a < j && documents[a].version == documents[i].version ==>
                    documents[a] == documents[i]
      {
        if documents[i].version == documents[j].version && documents[i] != documents[j] {
          return Some((nodes[j], nodes[i]));
        }
      }
    }
    return None;
  }

  lemma LeadsNowhere(s: State)
    ensures Leads(s, s)
  {
    assert Runs(s, [], false) && After(s, [], false) == s;
  }

  /** Proposal `k` of `t` is the one being driven, everything else is `s`. */
  ghost predicate Driving(s: State, t: State, k: nat, p: Proposal) {
    t == s.(proposals := t.proposals) && k == |s.proposals| && t.proposals == s.proposals + [p]
  }

  /** How the requests of one call fare: whether each reaches its node, and
      whether the node's reply makes it back. */
  datatype Network = Network(reaches: nat -> bool, replies: nat -> bool)

  /** Is the `i`th target heard when asked for its document? */
  predicate Heard(s: State, order: seq<NodeId>, net: Network, i: nat) {
    i < |order| && order[i] in s.held && net.reaches(i) && net.replies(i)
  }

  /** Is `node` the first target that is not heard? */
  ghost predicate FirstUnheard(s: State, order: seq<NodeId>, net: Network, node: NodeId) {
    exists i: nat :: i < |order| && node == order[i] && !Heard(s, order, net, i)
      && forall j: nat :: j < i ==> Heard(s, order, net, j)
  }

  /** Every target is heard, and these are the documents they hold. */
  ghost predicate Answers(s: State, order: seq<NodeId>, net: Network, documents: seq<Document>) {
    && |documents| == |order|
    && forall i :: 0 <= i < |documents| ==> Heard(s, order, net, i) && documents[i] == s.held[order[i]]
  }

  /** Step 1 of a proposal: ask every target in turn for its document. */
  method FetchAll(s: State, p: Proposal, net: Network) returns (failed: Option<NodeId>, t: State, documents: seq<Document>)
    requires p.fetched == [] && !p.applying && p.applied == 0
    ensures Leads(s.(proposals := s.proposals + [p]), t)
    ensures Driving(s, t, |s.proposals|, p.(fetched := documents))
    ensures failed.Some? ==> FirstUnheard(s, Order(p), net, failed.value)
    ensures failed.None? ==> Answers(s, Order(p), net, documents)
  {
    t, documents := s.(proposals := s.proposals + [p]), [];
    LeadsNowhere(t);
    var k := |s.proposals|;
    for i := 0 to |Order(p)|
      invariant |documents| == i
      invariant Driving(s, t, k, p.(fetched := documents))
      invariant Leads(s.(proposals := s.proposals + [p]), t)
      invariant forall j :: 0 <= j < i ==> Heard(s, Order(p), net, j) && documents[j] == s.held[Order(p)[j]]
    {
      var n := Order(p)[i];
      if !Heard(s, Order(p), net, i) {
        return Some(n), t, documents;
      }
      documents := documents + [s.held[n]];
      var q := p.(fetched := documents);
      FetchStep(s, t, k, p, documents[..i], i);
      t := s.(proposals := s.proposals + [q]);
      assert documents[..i] + [s.held[n]] == documents;
    }
    failed := None;
  }

  lemma FetchStep(s: State, t: State, k: nat, p: Proposal, documents: seq<Document>, i: nat)
    requires !p.applying && i == |documents| && i < |Order(p)| && Order(p)[i] in s.held
    requires Driving(s, t, k, p.(fetched := documents))
    requires Leads(s.(proposals := s.proposals + [p]), t)
    ensures var u := s.(proposals := s.proposals + [p.(fetched := documents + [s.held[Order(p)[i]]])]);
            Leads(s.(proposals := s.proposals + [p]), u)
  {
    var q := p.(fetched := documents);
    assert Order(q) == Order(p);
    LeadsBy(t, Fetch(k));
    var u := s.(proposals := s.proposals + [p.(fetched := documents + [s.held[Order(p)[i]]])]);
    assert Effect(t, Fetch(k)) == u;
    LeadsOn(s.(proposals := s.proposals + [p]), t, u);
  }

  /** `s` after the first `n` of `order` have taken `next`. */
  function DeliverAll(s: State, order: seq<NodeId>, n: nat, next: Document): State
    requires n <= |order|
  {
    if n == 0 then s else Deliver(DeliverAll(s, order, n - 1, next), order[n - 1], next)
  }

  /** What a result promises about the nodes: nothing applied, all of them, or
      exactly the first few. */
  ghost predicate Applied(s: State, t: State, order: seq<NodeId>, next: Document, count: nat) {
    && count <= |order|
    && (forall n <- order[..count] :: n in t.held && t.held[n] == next && n in t.saved && t.saved[n] == next)
    && (forall n :: n !in order[..count] ==> SameAt(s.held, t.held, n) && SameAt(s.saved, t.saved, n))
  }

  lemma {:induction false} DeliveredAll(s: State, t: State, order: seq<NodeId>, count: nat, next: Document)
    requires count <= |order|
    requires t.held == DeliverAll(s, order, count, next).held && t.saved == DeliverAll(s, order, count, next).saved
    ensures Applied(s, t, order, next, count)
    decreases count
  {
    if count > 0 {
      DeliveredAll(s, DeliverAll(s, order, count - 1, next), order, count - 1, next);
      assert order[..count] == order[..count - 1] + [order[count - 1]];
    }
  }

  /** The proposal being driven, cleared to apply and accepted `count` times. */
  function Underway(p: Proposal, documents: seq<Document>, count: nat): Proposal {
    p.(fetched := documents, applying := true, applied := count)
  }

  ghost predicate Applying(s: State, t: State, p: Proposal, documents: seq<Document>, count: nat) {
    && count <= |Order(p)|
    && t == DeliverAll(s, Order(p), count, p.next).(proposals := s.proposals + [Underway(p, documents, count)])
  }

  lemma CheckStep(s: State, t: State, p: Proposal, documents: seq<Document>)
    requires p.applied == 0 && |documents| == |Order(p)| && AllHold(documents, p.current.version)
    requires Driving(s, t, |s.proposals|, p.(fetched := documents))
    ensures var u := s.(proposals := s.proposals + [Underway(p, documents, 0)]);
            Leads(t, u) && Applying(s, u, p, documents, 0)
  {
    var k := |s.proposals|;
    assert Order(t.proposals[k]) == Order(p);
    LeadsBy(t, Check(k));
    assert Effect(t, Check(k)) == s.(proposals := s.proposals + [Underway(p, documents, 0)]);
  }

  lemma ApplyStep(s: State, t: State, p: Proposal, documents: seq<Document>, count: nat) returns (u: State)
    requires count < |Order(p)| && Applying(s, t, p, documents, count)
    requires Order(p)[count] in t.held && Accepts(t.held[Order(p)[count]], p.next)
    ensures Leads(t, u) && Applying(s, u, p, documents, count + 1)
    ensures u == Deliver(t, Order(p)[count], p.next).(proposals := s.proposals + [Underway(p, documents, count + 1)])
  {
    var k := |s.proposals|;
    assert Order(t.proposals[k]) == Order(p);
    LeadsBy(t, Apply(k));
    u := Effect(t, Apply(k));
    assert u.proposals == s.proposals + [Underway(p, documents, count + 1)];
  }

  lemma ApplyOn(s: State, t0: State, t: State, p: Proposal, documents: seq<Document>, count: nat)
    requires count < |Order(p)| && Applying(s, t, p, documents, count) && Leads(t0, t)
    requires Order(p)[count] in t.held && Accepts(t.held[Order(p)[count]], p.next)
    ensures var u := Deliver(t, Order(p)[count], p.next).(proposals := s.proposals + [Underway(p, documents, count + 1)]);
            Applying(s, u, p, documents, count + 1) && Leads(t0, u)
  {
    var u := ApplyStep(s, t, p, documents, count);
    LeadsOn(t0, t, u);
  }

  /** Target `i` accepts the document when it is asked. */
  predicate TakesAt(s: State, order: seq<NodeId>, next: Document, i: nat, net: Network)
    requires i < |order|
  {
    var u := DeliverAll(s, order, i, next);
    order[i] in u.held && Accepts(u.held[order[i]], next) && net.reaches(|order| + i)
  }

  /** How many have taken the document once target `i` was asked. */
  function TakenBy(s: State, order: seq<NodeId>, next: Document, i: nat, net: Network): nat
    requires i < |order|
  {
    if TakesAt(s, order, next, i, net) then i + 1 else i
  }

  /** It accepted, and the proposer never heard. */
  predicate TookSilently(s: State, order: seq<NodeId>, next: Document, i: nat, net: Network)
    requires i < |order|
  {
    TakesAt(s, order, next, i, net) && !net.replies(|order| + i)
  }

  /** Each of the first `i` targets accepted and was heard to. */
  ghost predicate HeardTo(s: State, order: seq<NodeId>, next: Document, i: nat, net: Network) {
    forall j: nat :: j < i ==> HeardAt(s, order, next, j, net)
  }

  predicate HeardAt(s: State, order: seq<NodeId>, next: Document, i: nat, net: Network) {
    i < |order| && TakesAt(s, order, next, i, net) && net.replies(|order| + i)
  }

  /** The proposer heard acceptance from every target before `i` and not from
      target `i`; the nodes that hold the document are those before it, and it
      too exactly when only its reply was lost. */
  ghost predicate StoppedAt(s: State, t: State, order: seq<NodeId>, next: Document, i: nat, net: Network) {
    && i < |order| && HeardTo(s, order, next, i, net)
    && (TakesAt(s, order, next, i, net) ==> TookSilently(s, order, next, i, net))
    && Applied(s, t, order, next, if TookSilently(s, order, next, i, net) then i + 1 else i)
  }

  lemma StoppedHere(s: State, t: State, p: Proposal, documents: seq<Document>, i: nat, net: Network)
    requires i < |Order(p)| && HeardTo(s, Order(p), p.next, i, net)
    requires !HeardAt(s, Order(p), p.next, i, net)
    requires Applying(s, t, p, documents, TakenBy(s, Order(p), p.next, i, net))
    ensures StoppedAt(s, t, Order(p), p.next, i, net)
  {
    DeliveredAll(s, t, Order(p), TakenBy(s, Order(p), p.next, i, net), p.next);
  }

  /** What step 2 promises of its result. */
  ghost predicate Step2(s: State, t: State, order: seq<NodeId>, next: Document, net: Network, r: ProposeResult) {
    match r
    case Proposed => HeardTo(s, order, next, |order|, net) && Applied(s, t, order, next, |order|)
    case Partial(applied, failed) =>
      && 0 < |applied| < |order| && applied == order[..|applied|] && failed == order[|applied|]
      && StoppedAt(s, t, order, next, |applied|, net)
    case Superseded(node) => order != [] && node == order[0] && StoppedAt(s, t, order, next, 0, net)
    case _ => false
  }

  /** One target asked to take the document, and whether it was heard to. */
  method ApplyOnce(s: State, ghost t0: State, t: State, p: Proposal, documents: seq<Document>, i: nat, net: Network)
    returns (u: State, heard: bool)
    requires i < |Order(p)| && Applying(s, t, p, documents, i) && Leads(t0, t)
    ensures Leads(t0, u)
    ensures Applying(s, u, p, documents, TakenBy(s, Order(p), p.next, i, net))
    ensures heard <==> HeardAt(s, Order(p), p.next, i, net)
  {
    var n := Order(p)[i];
    if n !in t.held || !Accepts(t.held[n], p.next) || !net.reaches(|Order(p)| + i) {
      return t, false;
    }
    ApplyOn(s, t0, t, p, documents, i);
    u := Deliver(t, n, p.next).(proposals := s.proposals + [Underway(p, documents, i + 1)]);
    heard := net.replies(|Order(p)| + i);
  }

  /** The loop of step 2: to the first target not heard to accept. */
  method ApplyUntilUnheard(s: State, t0: State, p: Proposal, documents: seq<Document>, net: Network) returns (i: nat, t: State)
    requires Applying(s, t0, p, documents, 0)
    ensures Leads(t0, t) && i <= |Order(p)| && HeardTo(s, Order(p), p.next, i, net)
    ensures i == |Order(p)| ==> Applying(s, t, p, documents, i)
    ensures i < |Order(p)| ==>
              && !HeardAt(s, Order(p), p.next, i, net)
              && Applying(s, t, p, documents, TakenBy(s, Order(p), p.next, i, net))
  {
    t, i := t0, 0;
    LeadsNowhere(t0);
    while i < |Order(p)|
      invariant i <= |Order(p)| && Applying(s, t, p, documents, i) && Leads(t0, t) && HeardTo(s, Order(p), p.next, i, net)
    {
      var u, heard := ApplyOnce(s, t0, t, p, documents, i, net);
      t := u;
      if !heard {
        return;
      }
      i := i + 1;
    }
  }

  /** Step 2 of a proposal: apply in document order, stop at the first target
      not heard to accept. */
  method ApplyInOrder(s: State, t0: State, p: Proposal, documents: seq<Document>, net: Network)
    returns (r: ProposeResult, t: State)
    requires Applying(s, t0, p, documents, 0)
    ensures Leads(t0, t) && Step2(s, t, Order(p), p.next, net, r)
  {
    var i;
    i, t := ApplyUntilUnheard(s, t0, p, documents, net);
    if i == |Order(p)| {
      DeliveredAll(s, t, Order(p), i, p.next);
      return Proposed, t;
    }
    StoppedHere(s, t, p, documents, i, net);
    return if i == 0 then Superseded(Order(p)[i]) else Partial(Order(p)[..i], Order(p)[i]), t;
  }

  /** Are all targets heard, and do they hold documents of one version? */
  ghost predicate AllAt(s: State, order: seq<NodeId>, net: Network, version: nat) {
    forall i: nat :: i < |order| ==> Heard(s, order, net, i) && s.held[order[i]].version == version
  }

  /** What each result says of the answers step 1 got: applying began exactly
      when every target held one document, of the version being replaced. */
  ghost predicate Step1(s: State, order: seq<NodeId>, current: Document, next: Document, net: Network, r: ProposeResult) {
    && (r.InvalidDocument? <==> !Valid(next))
    && match r
       case InvalidDocument => true
       case Unreachable(node) => FirstUnheard(s, order, net, node)
       case StaleProposal(found) => order != [] && found != current.version && AllAt(s, order, net, found)
       case VersionsDiffer =>
         && (forall i: nat :: i < |order| ==> Heard(s, order, net, i))
         && forall version :: !AllAt(s, order, net, version)
       case Diverged(a, b) => AllAt(s, order, net, current.version) && a in order && b in order && s.held[a] != s.held[b]
       case _ => AllAt(s, order, net, current.version) && forall a <- order, b <- order :: s.held[a] == s.held[b]
  }

  lemma AnswersAt(s: State, order: seq<NodeId>, net: Network, documents: seq<Document>, version: nat)
    requires Answers(s, order, net, documents)
    ensures AllAt(s, order, net, version) <==> forall j :: 0 <= j < |documents| ==> documents[j].version == version
  {
    if AllAt(s, order, net, version) {
      assert forall j: nat :: j < |documents| ==> Heard(s, order, net, j) && documents[j].version == version;
    }
  }

  lemma AnswersSame(s: State, order: seq<NodeId>, net: Network, documents: seq<Document>)
    requires Answers(s, order, net, documents)
    requires forall i, j :: 0 <= i < j < |documents| ==> documents[i] == documents[j]
    ensures forall a <- order, b <- order :: a in s.held && b in s.held && s.held[a] == s.held[b]
  {
    forall a, b | a in order && b in order ensures a in s.held && b in s.held && s.held[a] == s.held[b] {
      var i :| 0 <= i < |order| && order[i] == a;
      var j :| 0 <= j < |order| && order[j] == b;
      assert documents[i] == documents[j];
    }
  }

  /** The end of step 1: what speaks against applying, given every answer. */
  method Compare(s: State, order: seq<NodeId>, current: Document, ghost next: Document, ghost net: Network,
                 documents: seq<Document>)
    returns (refusal: Option<ProposeResult>)
    requires Answers(s, order, net, documents) && Valid(next)
    ensures refusal.Some? ==>
              && (refusal.value.StaleProposal? || refusal.value.VersionsDiffer? || refusal.value.Diverged?)
              && Step1(s, order, current, next, net, refusal.value)
    ensures refusal.None? ==> AllHold(documents, current.version) && Step1(s, order, current, next, net, Proposed)
  {
    var matching, allSame := CompareVersions(documents, current.version);
    forall version
      ensures AllAt(s, order, net, version) <==> forall j :: 0 <= j < |documents| ==> documents[j].version == version
    {
      AnswersAt(s, order, net, documents, version);
    }
    if !matching {
      return Some(if allSame then StaleProposal(documents[0].version) else VersionsDiffer);
    }
    var diverged := CheckSameContent(order, documents);
    if diverged.Some? {
      return Some(Diverged(diverged.value.0, diverged.value.1));
    }
    AnswersSame(s, order, net, documents);
    return None;
  }

  /** `propose_skipping`: whatever becomes of its requests and their replies,
      the call is a run of the agreement machine, and its result says why it
      stopped before applying, or exactly which nodes, a first part of the document's order, hold the successor:
      those heard to accept, and the one that failed if and only if it accepted
      and only its reply was lost. */
  method ProposeSkipping(s: State, current: Document, change: Change, skip: Option<NodeId>, net: Network)
    returns (r: ProposeResult, t: State)
    requires current in s.history && Successor(current, change).Some?
    ensures Leads(s, t)
    ensures var order, next := Targets(current, skip), Successor(current, change).value;
            && Step1(s, order, current, next, net, r)
            && if r.Proposed? || r.Partial? || r.Superseded? then Step2(s, t, order, next, net, r)
               else Applied(s, t, order, next, 0)
  {
    var next := Successor(current, change).value;
    var order := Targets(current, skip);
    LeadsNowhere(s);
    var valid := Validate(next);
    if !valid {
      return InvalidDocument, s;
    }
    var p := Proposal(current, next, skip, [], false, 0);
    var failed, asked, documents := BeginAndFetch(s, current, change, skip, net);
    t := asked;
    if failed.Some? {
      return Unreachable(failed.value), t;
    }
    var refusal := Compare(s, order, current, next, net, documents);
    if refusal.Some? {
      return refusal.value, t;
    }
    var cleared := s.(proposals := s.proposals + [Underway(p, documents, 0)]);
    CheckOn(s, t, p, documents);
    r, t := ApplyInOrder(s, cleared, p, documents, net);
    LeadsOn(s, cleared, t);
  }

  lemma CheckOn(s: State, t: State, p: Proposal, documents: seq<Document>)
    requires p.applied == 0 && |documents| == |Order(p)| && AllHold(documents, p.current.version)
    requires Driving(s, t, |s.proposals|, p.(fetched := documents)) && Leads(s, t)
    ensures var u := s.(proposals := s.proposals + [Underway(p, documents, 0)]);
            Leads(s, u) && Applying(s, u, p, documents, 0)
  {
    CheckStep(s, t, p, documents);
    LeadsOn(s, t, s.(proposals := s.proposals + [Underway(p, documents, 0)]));
  }

  /** Steps before the first application: begin, ask every target. */
  method BeginAndFetch(s: State, current: Document, change: Change, skip: Option<NodeId>, net: Network)
    returns (failed: Option<NodeId>, t: State, documents: seq<Document>)
    requires current in s.history && Successor(current, change).Some? && Valid(Successor(current, change).value)
    ensures var p := Proposal(current, Successor(current, change).value, skip, [], false, 0);
            && Leads(s, t) && Driving(s, t, |s.proposals|, p.(fetched := documents))
            && (failed.Some? ==> FirstUnheard(s, Order(p), net, failed.value))
            && (failed.None? ==> Answers(s, Order(p), net, documents))
  {
    var p := Proposal(current, Successor(current, change).value, skip, [], false, 0);
    ghost var begun := s.(proposals := s.proposals + [p]);
    LeadsBy(s, Propose(current, change, skip));
    assert Effect(s, Propose(current, change, skip)) == begun;
    failed, t, documents := FetchAll(s, p, net);
    LeadsOn(s, begun, t);
  }

  /** Do all documents carry this version, and if not, do they carry one? */
  method CompareVersions(documents: seq<Document>, version: nat) returns (matching: bool, allSame: bool)
    ensures matching <==> forall j :: 0 <= j < |documents| ==> documents[j].version == version
    ensures allSame <==> forall j :: 0 <= j < |documents| ==> documents[j].version == documents[0].version
  {
    allSame, matching := true, true;
    for i := 0 to |documents|
      invariant matching <==> forall j :: 0 <= j < i ==> documents[j].version == version
      invariant allSame <==> forall j :: 0 <= j < i ==> documents[j].version == documents[0].version
    {
      allSame := allSame && documents[i].version == documents[0].version;
      matching := matching && documents[i].version == version;
    }
  }

  // ---------------------------------------------------------------- sync

  datatype Report = Report(node: NodeId, document: Option<Document>)

  datatype SyncReport = SyncReport(highest: Document, updated: seq<NodeId>, current: seq<NodeId>, unreachable: seq<NodeId>)

  /** One document per version, the fact `sync` rests on. */
  ghost predicate Agreed(s: State) {
    && (forall a, b :: a in s.history && b in s.history && a.version == b.version ==> a == b)
    && (forall n :: n in s.held ==> s.held[n] in s.history)
  }

  /** What each member of `d` is heard to hold, in document order. */
  function Reports(s: State, d: Document, answers: nat -> bool): (reports: seq<Report>)
    ensures |reports| == |ActiveIds(d.nodes)|
  {
    var members := ActiveIds(d.nodes);
    seq(|members|, i requires 0 <= i < |members| =>
      Report(members[i], if members[i] in s.held && answers(i) then Some(s.held[members[i]]) else None))
  }

  /** `fetch_all`. */
  method AskMembers(s: State, d: Document, answers: nat -> bool) returns (reports: seq<Report>)
    ensures reports == Reports(s, d, answers)
  {
    reports := [];
    for i := 0 to |ActiveIds(d.nodes)|
      invariant |reports| == i && forall j :: 0 <= j < i ==> reports[j] == Reports(s, d, answers)[j]
    {
      var n := ActiveIds(d.nodes)[i];
      reports := reports + [Report(n, if n in s.held && answers(i) then Some(s.held[n]) else None)];
    }
  }

  /** The newest document among the seed's own and its members' answers. */
  method Newest(seed: Document, reports: seq<Report>) returns (highest: Document)
    ensures highest.version >= seed.version && (highest.version == seed.version ==> highest == seed)
    ensures highest == seed || exists r :: r in reports && r.document == Some(highest)
    ensures forall r <- reports :: r.document.Some? ==> r.document.value.version <= highest.version
  {
    highest := seed;
    for i := 0 to |reports|
      invariant highest.version >= seed.version && (highest.version == seed.version ==> highest == seed)
      invariant highest == seed || exists r :: r in reports && r.document == Some(highest)
      invariant forall j :: 0 <= j < i && reports[j].document.Some? ==> reports[j].document.value.version <= highest.version
    {
      if reports[i].document.Some? && reports[i].document.value.version > highest.version {
        highest := reports[i].document.value;
      }
    }
  }

  /** What becomes of a member that is asked: heard at the version pushed, heard
      to take the document, or neither. */
  datatype Fate = AlreadyCurrent | HeardToTake | NotHeard

  /** The push for report `i` reaches a node that reported another version and
      that accepts the document. */
  predicate Offered(s: State, highest: Document, reports: seq<Report>, net: Network, i: nat) {
    && i < |reports| && reports[i].document.Some? && reports[i].document.value.version != highest.version
    && net.reaches(i) && reports[i].node in s.held && Accepts(s.held[reports[i].node], highest)
  }

  /** One of the first `count` pushes brings `n` the document. */
  ghost predicate Took(s: State, highest: Document, reports: seq<Report>, net: Network, n: NodeId, count: nat) {
    exists i: nat :: i < count && Offered(s, highest, reports, net, i) && reports[i].node == n
  }

  /** A node named twice takes the document once. */
  ghost function FateOf(s: State, highest: Document, reports: seq<Report>, net: Network, i: nat): Fate
    requires i < |reports|
  {
    if reports[i].document.Some? && reports[i].document.value.version == highest.version then AlreadyCurrent
    else if Offered(s, highest, reports, net, i) && net.replies(i) && !Took(s, highest, reports, net, reports[i].node, i)
    then HeardToTake
    else NotHeard
  }

  /** The nodes of the first `count` reports that fare so, in order. */
  ghost function NodesWith(s: State, highest: Document, reports: seq<Report>, net: Network, count: nat, fate: Fate):
    (nodes: seq<NodeId>)
    requires count <= |reports|
    ensures forall n :: n in nodes <==>
              exists i: nat :: i < count && FateOf(s, highest, reports, net, i) == fate && reports[i].node == n
  {
    if count == 0 then []
    else
      var before := NodesWith(s, highest, reports, net, count - 1, fate);
      if FateOf(s, highest, reports, net, count - 1) == fate then before + [reports[count - 1].node] else before
  }

  /** The report after `count` pushes names each node by its fate, and exactly the
      nodes that took the document hold it, heard or not. */
  ghost predicate Told(s: State, t: State, r: SyncReport, reports: seq<Report>, net: Network, count: nat) {
    && count <= |reports|
    && r.updated == NodesWith(s, r.highest, reports, net, count, HeardToTake)
    && r.current == NodesWith(s, r.highest, reports, net, count, AlreadyCurrent)
    && r.unreachable == NodesWith(s, r.highest, reports, net, count, NotHeard)
    && t.held.Keys == s.held.Keys
    && forall n :: n in s.held ==>
         t.held[n] == if Took(s, r.highest, reports, net, n, count) then r.highest else s.held[n]
  }

  /** So every member is accounted for, and those reported updated or current have
      the version pushed. */
  lemma ToldMeans(s: State, t: State, r: SyncReport, reports: seq<Report>, net: Network)
    requires Told(s, t, r, reports, net, |reports|)
    requires forall q <- reports :: q.document.Some? ==> q.node in s.held && q.document.value == s.held[q.node]
    ensures forall n <- r.updated :: n in t.held && t.held[n] == r.highest
    ensures forall n <- r.current :: n in t.held && t.held[n].version == r.highest.version
    ensures forall q <- reports :: q.node in r.updated + r.current + r.unreachable
  {
    forall n | n in r.current ensures n in t.held && t.held[n].version == r.highest.version {
      var i: nat :| i < |reports| && FateOf(s, r.highest, reports, net, i) == AlreadyCurrent && reports[i].node == n;
      assert reports[i] in reports;
    }
    forall q | q in reports ensures q.node in r.updated + r.current + r.unreachable {
      var i :| 0 <= i < |reports| && reports[i] == q;
      assert FateOf(s, r.highest, reports, net, i) in {AlreadyCurrent, HeardToTake, NotHeard};
    }
  }

  /** A valid document names each member once, so its reports fare alone. */
  lemma MembersTakeOnce(s: State, d: Document, answers: nat -> bool, net: Network, i: nat)
    requires Valid(d) && i < |Reports(s, d, answers)|
    ensures !Took(s, d, Reports(s, d, answers), net, Reports(s, d, answers)[i].node, i)
  {
    ActiveIdsDistinct(d.nodes);
  }

  /** Nothing but forward moves, within the documents that already existed. */
  ghost predicate OnlyForward(s: State, t: State) {
    && t.history == s.history
    && (forall n :: n in s.held ==> n in t.held && t.held[n].version >= s.held[n].version)
    && (forall n :: n in t.held ==> t.held[n] in s.history)
  }

  lemma PushStep(s: State, t: State, n: NodeId, d: Document)
    requires OnlyForward(s, t) && Leads(s, t) && d in s.history && n in t.held && Accepts(t.held[n], d)
    ensures OnlyForward(s, Deliver(t, n, d)) && Leads(s, Deliver(t, n, d))
  {
    LeadsBy(t, Push(n, d));
    LeadsOn(s, t, Deliver(t, n, d));
  }

  lemma TookNext(s: State, highest: Document, reports: seq<Report>, net: Network, n: NodeId, i: nat)
    requires i < |reports|
    ensures Took(s, highest, reports, net, n, i + 1) <==>
              Took(s, highest, reports, net, n, i) || (Offered(s, highest, reports, net, i) && reports[i].node == n)
  {
    if Took(s, highest, reports, net, n, i) {
      var j: nat :| j < i && Offered(s, highest, reports, net, j) && reports[j].node == n;
    }
  }

  /** The push for one report, and whether the node was heard to take it. */
  method PushOnce(s: State, t0: State, highest: Document, ghost reports: seq<Report>, q: Report, i: nat, net: Network)
    returns (heard: bool, t: State)
    requires i < |reports| && q == reports[i] && q.document.Some? && q.document.value.version != highest.version
    requires q.node in s.held && highest in s.history
    requires Leads(s, t0) && OnlyForward(s, t0) && t0.held.Keys == s.held.Keys
    requires forall n :: n in s.held ==>
               t0.held[n] == if Took(s, highest, reports, net, n, i) then highest else s.held[n]
    ensures Leads(s, t) && OnlyForward(s, t) && t.held.Keys == s.held.Keys
    ensures forall n :: n in s.held ==>
              t.held[n] == if Took(s, highest, reports, net, n, i + 1) then highest else s.held[n]
    ensures heard <==> FateOf(s, highest, reports, net, i) == HeardToTake
  {
    var taken := net.reaches(i) && Accepts(t0.held[q.node], highest);
    t := t0;
    if taken {
      PushStep(s, t0, q.node, highest);
      t := Deliver(t0, q.node, highest);
    }
    heard := taken && net.replies(i);
    forall n { TookNext(s, highest, reports, net, n, i); }
  }

  /** The push loop of `sync`. */
  method PushHighest(s: State, highest: Document, reports: seq<Report>, net: Network)
    returns (r: SyncReport, t: State)
    requires highest in s.history && forall n :: n in s.held ==> s.held[n] in s.history
    requires forall q <- reports :: q.document.Some? ==> q.node in s.held && q.document.value == s.held[q.node]
    ensures Leads(s, t) && OnlyForward(s, t)
    ensures r.highest == highest && Told(s, t, r, reports, net, |reports|)
  {
    t, r := s, SyncReport(highest, [], [], []);
    LeadsNowhere(s);
    for i := 0 to |reports|
      invariant Leads(s, t) && OnlyForward(s, t)
      invariant r.highest == highest && Told(s, t, r, reports, net, i)
    {
      var q := reports[i];
      assert q in reports;
      forall n { TookNext(s, highest, reports, net, n, i); }
      if q.document.None? {
        r := r.(unreachable := r.unreachable + [q.node]);
      } else if q.document.value.version == highest.version {
        r := r.(current := r.current + [q.node]);
      } else {
        var heard;
        heard, t := PushOnce(s, t, highest, reports, q, i, net);
        r := if heard then r.(updated := r.updated + [q.node]) else r.(unreachable := r.unreachable + [q.node]);
      }
    }
  }

  /** Two nodes report different documents at one version. */
  ghost predicate Differ(a: Report, b: Report) {
    && a.document.Some? && b.document.Some? && a.document.value.version == b.document.value.version
    && a.document != b.document
  }

  /** The document `sync` pushes: the newest among the seed's own and what the
      members it lists answer. */
  ghost predicate NewestAmong(highest: Document, seed: Document, reports: seq<Report>) {
    && (highest == seed || exists q :: q in reports && q.document == Some(highest))
    && highest.version >= seed.version && (highest.version == seed.version ==> highest == seed)
    && forall q <- reports :: q.document.Some? ==> q.document.value.version <= highest.version
  }

  /** The members asked last: again, when a newer document was found. */
  function AskedLast(s: State, seed: NodeId, highest: Document, first: nat -> bool, second: nat -> bool): seq<Report>
    requires seed in s.held
  {
    Reports(s, highest, if highest.version == s.held[seed].version then first else second)
  }

  /** `sync`: a run of pushes of the newest document found among the seed's
      members. It refuses exactly when two members hold different documents at
      one version, which agreement excludes. Otherwise every member is reported
      by what became of its report, its request and its reply, and exactly the
      members the push reached and that accept it hold the document after. */
  method Sync(s: State, seed: NodeId, first: nat -> bool, second: nat -> bool, net: Network)
    returns (r: Result<SyncReport, (NodeId, NodeId)>, t: State, ghost highest: Document)
    requires seed in s.held && forall n :: n in s.held ==> s.held[n] in s.history
    ensures Leads(s, t) && OnlyForward(s, t)
    ensures highest in s.history && NewestAmong(highest, s.held[seed], Reports(s, s.held[seed], first))
    ensures var reports := AskedLast(s, seed, highest, first, second);
            && (r.Err? <==> exists a, b :: a in reports && b in reports && Differ(a, b))
            && (r.Err? ==> exists a, b :: a in reports && b in reports && Differ(a, b) && r.error == (a.node, b.node))
    ensures Agreed(s) ==> r.Ok?
    ensures r.Err? ==> t == s
    ensures r.Ok? ==>
              && r.value.highest == highest
              && var reports := AskedLast(s, seed, highest, first, second); Told(s, t, r.value, reports, net, |reports|)
    ensures r.Ok? ==>
              && (forall n <- r.value.updated :: n in t.held && t.held[n] == highest)
              && (forall n <- r.value.current :: n in t.held && t.held[n].version == highest.version)
              && (forall n <- ActiveIds(highest.nodes) :: n in r.value.updated + r.value.current + r.value.unreachable)
  {
    var known := AskMembers(s, s.held[seed], first);
    var newest := Newest(s.held[seed], known);
    highest := newest;
    var reports := known;
    if newest.version != s.held[seed].version {
      reports := AskMembers(s, newest, second);
    }
    assert reports == AskedLast(s, seed, newest, first, second);
    var pair := CheckReports(s, reports);
    if pair.Some? {
      LeadsNowhere(s);
      return Err(pair.value), s, newest;
    }
    var report;
    report, t := PushHighest(s, newest, reports, net);
    ToldMeans(s, t, report, reports, net);
    ReportsName(newest, reports);
    r := Ok(report);
  }

  lemma ReportsName(d: Document, reports: seq<Report>)
    requires |reports| == |ActiveIds(d.nodes)| && forall i :: 0 <= i < |reports| ==> reports[i].node == ActiveIds(d.nodes)[i]
    ensures forall n <- ActiveIds(d.nodes) :: exists q :: q in reports && q.node == n
  {
    forall n | n in ActiveIds(d.nodes) ensures exists q :: q in reports && q.node == n {
      var i :| 0 <= i < |ActiveIds(d.nodes)| && ActiveIds(d.nodes)[i] == n;
      assert reports[i] in reports;
    }
  }

  /** The documents reported, checked against each other. */
  method CheckReports(ghost s: State, reports: seq<Report>) returns (pair: Option<(NodeId, NodeId)>)
    requires forall q <- reports :: q.document.Some? ==> q.node in s.held && q.document.value == s.held[q.node]
    ensures pair.Some? <==> exists a, b :: a in reports && b in reports && Differ(a, b)
    ensures pair.Some? ==> exists a, b :: a in reports && b in reports && Differ(a, b) && pair.value == (a.node, b.node)
    ensures Agreed(s) ==> pair.None?
  {
    var nodes, documents := Answered(reports);
    AnsweredDiffer(reports, nodes, documents);
    pair := CheckSameContent(nodes, documents);
  }

  /** The lists hold the reports that arrived. */
  ghost predicate Lists(reports: seq<Report>, nodes: seq<NodeId>, documents: seq<Document>) {
    && |nodes| == |documents|
    && (forall i :: 0 <= i < |nodes| ==> Report(nodes[i], Some(documents[i])) in reports)
    && (forall q <- reports :: q.document.Some? ==>
          exists i :: 0 <= i < |nodes| && nodes[i] == q.node && documents[i] == q.document.value)
  }

  lemma AnsweredDiffer(reports: seq<Report>, nodes: seq<NodeId>, documents: seq<Document>)
    requires Lists(reports, nodes, documents)
    ensures forall a, b :: a in reports && b in reports && Differ(a, b) ==>
              exists i, j :: 0 <= i < j < |documents| && documents[i].version == documents[j].version && documents[i] != documents[j]
    ensures forall i, j :: 0 <= i < j < |documents| && documents[i].version == documents[j].version && documents[i] != documents[j] ==>
              Differ(Report(nodes[i], Some(documents[i])), Report(nodes[j], Some(documents[j])))
  {
    forall a, b | a in reports && b in reports && Differ(a, b)
      ensures exists i, j :: 0 <= i < j < |documents| && documents[i].version == documents[j].version && documents[i] != documents[j]
    {
      var i :| 0 <= i < |nodes| && documents[i] == a.document.value;
      var j :| 0 <= j < |nodes| && documents[j] == b.document.value;
      assert (if i < j then i else j) < (if i < j then j else i);
    }
  }

  /** The reports that arrived, as parallel lists. */
  method Answered(reports: seq<Report>) returns (nodes: seq<NodeId>, documents: seq<Document>)
    ensures Lists(reports, nodes, documents)
  {
    nodes, documents := [], [];
    for k := 0 to |reports|
      invariant Lists(reports[..k], nodes, documents)
    {
      assert reports[..k + 1] == reports[..k] + [reports[k]];
      if reports[k].document.Some? {
        ListsOneMore(reports[..k], nodes, documents, reports[k]);
        nodes, documents := nodes + [reports[k].node], documents + [reports[k].document.value];
      }
    }
    assert reports[..|reports|] == reports;
  }

  lemma ListsOneMore(reports: seq<Report>, nodes: seq<NodeId>, documents: seq<Document>, q: Report)
    requires Lists(reports, nodes, documents) && q.document.Some?
    ensures Lists(reports + [q], nodes + [q.node], documents + [q.document.value])
  {
    var n2, d2 := nodes + [q.node], documents + [q.document.value];
    forall p | p in reports + [q] && p.document.Some?
      ensures exists i :: 0 <= i < |n2| && n2[i] == p.node && d2[i] == p.document.value
    {
      if p in reports {
        var i :| 0 <= i < |nodes| && nodes[i] == p.node && documents[i] == p.document.value;
        assert n2[i] == p.node && d2[i] == p.document.value;
      } else {
        assert n2[|nodes|] == p.node && d2[|nodes|] == p.document.value;
      }
    }
  }
}
