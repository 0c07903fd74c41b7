/** Agreement on the cluster document without a master
    (crates/djbod-client/src/admin.rs:269-433, crates/djbod-node/src/node.rs:462-502,
    crates/djbod-node/src/membership.rs).

    A state machine over what every node serves and what every node has on
    disk, with any number of proposals, pushes, joins, restarts and adoptions
    interleaved one message at a time. A process that crashes simply takes no
    further step. */
module DocumentAgreement {
  import opened Prelude
  import opened ClusterDocument

  /** One `propose_skipping` in flight. `fetched` are the documents its check
      has read so far, `applied` how many nodes have accepted `next`. */
  datatype Proposal = Proposal(
    current: Document, next: Document, skip: Option<NodeId>,
    fetched: seq<Document>, applying: bool, applied: nat)

  /** `held` is what a running node serves, `saved` its `cluster.json`;
      `history` is every document any node ever held. */
  datatype State = State(
    held: map<NodeId, Document>, saved: map<NodeId, Document>,
    proposals: seq<Proposal>, history: set<Document>)

  datatype Event =
    | Propose(current: Document, change: Change, skip: Option<NodeId>)
    | Fetch(p: nat)
    | Check(p: nat)
    | Apply(p: nat)
    | Push(node: NodeId, document: Document)
    | Save(node: NodeId, document: Document)
    | Adopt(node: NodeId, document: Document)
    | Stop(node: NodeId)
    | Start(node: NodeId)

  function Order(p: Proposal): seq<NodeId> {
    Targets(p.current, p.skip)
  }

  /** `check_same_content` together with the version test before it. */
  predicate AllHold(documents: seq<Document>, version: nat) {
    && (forall d <- documents :: d.version == version)
    && (forall i, j :: 0 <= i < j < |documents| ==> documents[i] == documents[j])
  }

  /** `Node::apply_document` accepts: the same cluster, strictly newer. */
  predicate Accepts(held: Document, proposed: Document) {
    proposed.clusterId == held.clusterId && held.version < proposed.version
  }

  ghost predicate Enabled(s: State, e: Event) {
    match e
    case Propose(current, change, skip) =>
      current in s.history && Successor(current, change).Some? && Valid(Successor(current, change).value)
    case Fetch(p) =>
      && p < |s.proposals| && !s.proposals[p].applying
      && |s.proposals[p].fetched| < |Order(s.proposals[p])|
      && Order(s.proposals[p])[|s.proposals[p].fetched|] in s.held
    case Check(p) =>
      && p < |s.proposals|
      && |s.proposals[p].fetched| == |Order(s.proposals[p])|
      && AllHold(s.proposals[p].fetched, s.proposals[p].current.version)
    case Apply(p) =>
      && p < |s.proposals| && s.proposals[p].applying
      && s.proposals[p].applied < |Order(s.proposals[p])|
      && Order(s.proposals[p])[s.proposals[p].applied] in s.held
      && Accepts(s.held[Order(s.proposals[p])[s.proposals[p].applied]], s.proposals[p].next)
    case Push(node, document) =>
      node in s.held && document in s.history && Accepts(s.held[node], document)
    case Save(node, document) =>
      document in s.history
    case Adopt(node, document) =>
      && node !in s.held && node in s.saved && document in s.history
      && document.version > s.saved[node].version
    case Stop(node) => node in s.held
    case Start(node) => node in s.saved && ListedAs(s.saved[node], node, Active)
  }

  ghost function Effect(s: State, e: Event): State
    requires Enabled(s, e)
  {
    match e
    case Propose(current, change, skip) =>
      s.(proposals := s.proposals + [Proposal(current, Successor(current, change).value, skip, [], false, 0)])
    case Fetch(p) =>
      var q := s.proposals[p];
      s.(proposals := s.proposals[p := q.(fetched := q.fetched + [s.held[Order(q)[|q.fetched|]]])])
    case Check(p) =>
      s.(proposals := s.proposals[p := s.proposals[p].(applying := true)])
    case Apply(p) =>
      var q := s.proposals[p];
      Deliver(s, Order(q)[q.applied], q.next).(proposals := s.proposals[p := q.(applied := q.applied + 1)])
    case Push(node, document) => Deliver(s, node, document)
    case Save(node, document) => s.(saved := s.saved[node := document])
    case Adopt(node, document) => s.(saved := s.saved[node := document])
    case Stop(node) => s.(held := s.held - {node})
    case Start(node) => s.(held := s.held[node := s.saved[node]])
  }

  /** A running node takes a document: saved first, then served. */
  function Deliver(s: State, node: NodeId, document: Document): State {
    s.(held := s.held[node := document], saved := s.saved[node := document],
       history := s.history + {document})
  }

  ghost predicate SameAt(was: map<NodeId, Document>, now: map<NodeId, Document>, n: NodeId) {
    (n in was <==> n in now) && (n in was && n in now ==> was[n] == now[n])
  }

  /** The node a step concerns. */
  ghost function Concerns(s: State, e: Event): Option<NodeId>
    requires Enabled(s, e)
  {
    match e
    case Apply(p) => Some(Order(s.proposals[p])[s.proposals[p].applied])
    case Push(node, _) => Some(node)
    case Save(node, _) => Some(node)
    case Adopt(node, _) => Some(node)
    case Stop(node) => Some(node)
    case Start(node) => Some(node)
    case _ => None
  }

  /** Every step leaves all nodes but one as they were; that one stops, writes a
      document to disk, or serves the document it has on disk, and so never one
      that a restart would not bring back. */
  lemma StepTouches(s: State, e: Event)
    requires Enabled(s, e)
    ensures var t := Effect(s, e);
            forall n: NodeId :: Concerns(s, e) != Some(n) ==> SameAt(s.held, t.held, n) && SameAt(s.saved, t.saved, n)
    ensures var t := Effect(s, e);
            match e
            case Apply(p) =>
              var n := Concerns(s, e).value;
              n in t.held && n in t.saved && t.held[n] == t.saved[n] == s.proposals[p].next
            case Push(n, d) => n in t.held && n in t.saved && t.held[n] == t.saved[n] == d
            case Save(n, d) => SameAt(s.held, t.held, n) && n in t.saved && t.saved[n] == d
            case Adopt(n, d) => n !in t.held && n in t.saved && t.saved[n] == d
            case Stop(n) => n !in t.held && SameAt(s.saved, t.saved, n)
            case Start(n) => n in t.held && SameAt(s.saved, t.saved, n) && t.held[n] == t.saved[n]
            case _ => t.held == s.held && t.saved == s.saved
    ensures forall n :: n in Effect(s, e).held && !SameAt(s.held, Effect(s, e).held, n) ==>
              n in Effect(s, e).saved && Effect(s, e).held[n] == Effect(s, e).saved[n]
  {
  }

  /** What the agreement needs of the processes around it: a proposal never
      skips the node its documents are serialised on, and a document written
      straight to disk is never older than the one already there. */
  predicate Disciplined(s: State, e: Event) {
    match e
    case Propose(current, _, skip) => HasActive(current) ==> skip != Some(First(current))
    case Save(node, document) => node in s.saved ==> document.version >= s.saved[node].version
    case _ => true
  }

  ghost predicate Runs(s: State, events: seq<Event>, disciplined: bool)
    decreases |events|
  {
    events != [] ==>
      && Enabled(s, events[0])
      && (disciplined ==> Disciplined(s, events[0]))
      && Runs(Effect(s, events[0]), events[1..], disciplined)
  }

  ghost function After(s: State, events: seq<Event>, disciplined: bool): State
    requires Runs(s, events, disciplined)
    decreases |events|
  {
    if events == [] then s else After(Effect(s, events[0]), events[1..], disciplined)
  }

  /** `init_cluster`: version 1, one member, held and saved by it. */
  ghost predicate Founding(d: Document, node: NodeId) {
    d.version == 1 && Valid(d) && ActiveIds(d.nodes) == [node]
  }

  function Initial(d: Document, node: NodeId): State {
    State(map[node := d], map[node := d], [], {d})
  }

  // ----------------------------------------------------------- invariant

  /** `node` has got to `version`, on disk and, if it is running, in memory. */
  predicate Reached(s: State, node: NodeId, version: nat) {
    && node in s.saved && s.saved[node].version >= version
    && (node in s.held ==> s.held[node].version >= version)
  }

  ghost predicate ChainOk(chosen: seq<Document>) {
    && chosen != []
    && (forall i :: 0 <= i < |chosen| ==> chosen[i].version == i + 1 && HasActive(chosen[i]))
    && (forall i {:trigger Valid(chosen[i])} :: 0 <= i < |chosen| ==> Valid(chosen[i]))
    && (forall i, j {:trigger Descends(chosen[i], chosen[j])} :: 0 <= i <= j < |chosen| ==> Descends(chosen[i], chosen[j]))
  }

  ghost predicate HistoryOk(s: State, chosen: seq<Document>) {
    && (forall d :: d in s.history ==> 1 <= d.version <= |chosen| && chosen[d.version - 1] == d)
    && (forall i {:trigger chosen[i] in s.history} :: 0 <= i < |chosen| ==> chosen[i] in s.history)
  }

  ghost predicate NodesOk(s: State) {
    && (forall n :: n in s.saved ==> s.saved[n] in s.history)
    && (forall n :: n in s.held ==> s.held[n] in s.history && n in s.saved)
    && (forall n :: n in s.held ==> s.saved[n].version >= s.held[n].version)
  }

  /** Version i + 2 exists only once the first member of version i + 1 has it. */
  ghost predicate Serialised(s: State, chosen: seq<Document>) {
    forall i {:trigger First(chosen[i])} :: 0 <= i < |chosen| - 1 ==> HasActive(chosen[i]) && Reached(s, First(chosen[i]), i + 2)
  }

  ghost predicate ProposalOk(s: State, p: Proposal) {
    && p.current in s.history && HasActive(p.current)
    && p.next.version == p.current.version + 1 && HasActive(p.next) && Valid(p.next)
    && Descends(p.current, p.next)
    && p.skip != Some(First(p.current))
    && |p.fetched| <= |Order(p)| && p.applied <= |Order(p)|
    && (forall i :: 0 <= i < |p.fetched| ==> Reached(s, Order(p)[i], p.fetched[i].version))
    && (p.applying ==> |p.fetched| == |Order(p)| && forall d <- p.fetched :: d.version == p.current.version)
    && (p.applied > 0 ==> p.applying && p.next in s.history)
  }

  ghost predicate Core(s: State, chosen: seq<Document>) {
    ChainOk(chosen) && HistoryOk(s, chosen) && NodesOk(s) && Serialised(s, chosen)
  }

  ghost predicate Invariant(s: State, chosen: seq<Document>) {
    Core(s, chosen) && (forall p <- s.proposals :: ProposalOk(s, p))
  }

  /** Nothing anybody has reached is ever lost again. */
  ghost predicate Forward(s: State, t: State) {
    && s.history <= t.history
    && (forall n: NodeId, v: nat :: Reached(s, n, v) ==> Reached(t, n, v))
  }

  lemma StepForward(s: State, e: Event)
    requires Enabled(s, e) && Disciplined(s, e) && NodesOk(s)
    ensures Forward(s, Effect(s, e))
  {
  }

  lemma ProposalKept(s: State, t: State, p: Proposal)
    requires Forward(s, t) && ProposalOk(s, p)
    ensures ProposalOk(t, p)
  {
  }

  lemma OthersKept(s: State, t: State)
    requires Forward(s, t) && t.proposals == s.proposals
    requires forall p <- s.proposals :: ProposalOk(s, p)
    ensures forall p <- t.proposals :: ProposalOk(t, p)
  {
    forall p | p in t.proposals ensures ProposalOk(t, p) {
      ProposalKept(s, t, p);
    }
  }

  lemma OneProposalChanged(s: State, t: State, k: nat, q: Proposal)
    requires Forward(s, t) && k < |s.proposals| && t.proposals == s.proposals[k := q]
    requires forall p <- s.proposals :: ProposalOk(s, p)
    requires ProposalOk(t, q)
    ensures forall p <- t.proposals :: ProposalOk(t, p)
  {
    forall p | p in t.proposals ensures ProposalOk(t, p) {
      var i :| 0 <= i < |t.proposals| && t.proposals[i] == p;
      if i != k {
        assert p == s.proposals[i];
        ProposalKept(s, t, p);
      }
    }
  }

  lemma FirstStillBehind(s: State, p: Proposal)
    requires ProposalOk(s, p) && p.applying && Order(p) != []
    ensures Order(p)[0] == First(p.current)
    ensures Reached(s, First(p.current), p.current.version)
  {
    FirstTarget(p.current, p.skip);
    assert p.fetched[0] in p.fetched;
  }

  lemma BehindMeansNewest(s: State, chosen: seq<Document>, d: Document)
    requires HistoryOk(s, chosen) && Serialised(s, chosen) && d in s.history && HasActive(d)
    requires First(d) in s.held && s.held[First(d)].version <= d.version
    ensures d == chosen[|chosen| - 1]
  {
    assert First(d) == First(chosen[d.version - 1]);
  }

  /** The heart of the protocol: a proposal's first acceptance extends the
      chain, because the node that accepts still held the version the
      proposal was built from and every competing successor has to pass
      through that same node. */
  lemma FirstAcceptanceIsNewest(s: State, chosen: seq<Document>, k: nat)
    requires Invariant(s, chosen) && Enabled(s, Apply(k))
    requires s.proposals[k].applied == 0
    ensures s.proposals[k].current == chosen[|chosen| - 1]
    ensures Order(s.proposals[k])[0] == First(s.proposals[k].current)
  {
    var p := s.proposals[k];
    assert p in s.proposals;
    FirstStillBehind(s, p);
    BehindMeansNewest(s, chosen, p.current);
  }

  lemma DescendsTransitive(a: Document, b: Document, c: Document)
    requires Descends(a, b) && Descends(b, c)
    ensures Descends(a, c)
  {
  }

  lemma ChainExtends(chosen: seq<Document>, next: Document)
    requires ChainOk(chosen) && next.version == |chosen| + 1 && HasActive(next) && Valid(next)
    requires Descends(chosen[|chosen| - 1], next)
    ensures ChainOk(chosen + [next])
  {
    var longer := chosen + [next];
    forall i, j | 0 <= i <= j < |longer| ensures Descends(longer[i], longer[j]) {
      if j < |chosen| {
        assert Descends(chosen[i], chosen[j]);
      } else if i < |chosen| {
        assert Descends(chosen[i], chosen[|chosen| - 1]);
        DescendsTransitive(chosen[i], chosen[|chosen| - 1], next);
      }
    }
  }

  lemma DeliveryKeepsNodes(s: State, node: NodeId, document: Document)
    requires NodesOk(s)
    ensures NodesOk(Deliver(s, node, document))
  {
  }

  lemma KnownDelivery(s: State, node: NodeId, document: Document)
    requires document in s.history
    ensures Deliver(s, node, document).history == s.history
  {
  }

  lemma NewestDelivery(s: State, chosen: seq<Document>, node: NodeId, next: Document)
    requires HistoryOk(s, chosen) && next.version == |chosen| + 1
    ensures HistoryOk(Deliver(s, node, next), chosen + [next])
  {
  }

  /** The chain may grow once the first member of its last document has the
      next one. */
  lemma SerialisedLonger(s: State, t: State, chosen: seq<Document>, next: Document)
    requires chosen != [] && Serialised(s, chosen) && Forward(s, t)
    requires HasActive(chosen[|chosen| - 1]) && Reached(t, First(chosen[|chosen| - 1]), |chosen| + 1)
    ensures Serialised(t, chosen + [next])
  {
    var longer := chosen + [next];
    forall i | 0 <= i < |longer| - 1 ensures HasActive(longer[i]) && Reached(t, First(longer[i]), i + 2) {
      assert longer[i] == chosen[i];
      if i < |chosen| - 1 {
        assert Reached(s, First(chosen[i]), i + 2);
      }
    }
  }

  /** A first acceptance: the chain grows by the document accepted. */
  lemma FirstApplyKeeps(s: State, chosen: seq<Document>, k: nat)
    requires Invariant(s, chosen) && Enabled(s, Apply(k)) && s.proposals[k].applied == 0
    ensures ChainOk(chosen + [s.proposals[k].next])
    ensures HistoryOk(Effect(s, Apply(k)), chosen + [s.proposals[k].next])
    ensures Serialised(Effect(s, Apply(k)), chosen + [s.proposals[k].next])
  {
    var p, t := s.proposals[k], Effect(s, Apply(k));
    assert p in s.proposals;
    StepForward(s, Apply(k));
    FirstAcceptanceIsNewest(s, chosen, k);
    ChainExtends(chosen, p.next);
    NewestDelivery(s, chosen, Order(p)[0], p.next);
    SerialisedLonger(s, t, chosen, p.next);
  }

  lemma ApplyKeepsProposals(s: State, k: nat)
    requires Enabled(s, Apply(k)) && Forward(s, Effect(s, Apply(k)))
    requires forall p <- s.proposals :: ProposalOk(s, p)
    ensures forall p <- Effect(s, Apply(k)).proposals :: ProposalOk(Effect(s, Apply(k)), p)
  {
    var p, t := s.proposals[k], Effect(s, Apply(k));
    assert p in s.proposals;
    ProposalKept(s, t, p);
    var q := p.(applied := p.applied + 1);
    assert ProposalOk(t, q) by {
      assert Order(q) == Order(p);
    }
    OneProposalChanged(s, t, k, q);
  }

  lemma ApplyKeeps(s: State, chosen: seq<Document>, k: nat) returns (longer: seq<Document>)
    requires Invariant(s, chosen) && Enabled(s, Apply(k))
    ensures chosen <= longer && Invariant(Effect(s, Apply(k)), longer)
  {
    var p, t := s.proposals[k], Effect(s, Apply(k));
    assert p in s.proposals;
    StepForward(s, Apply(k));
    DeliveryKeepsNodes(s, Order(p)[p.applied], p.next);
    ApplyKeepsProposals(s, k);
    if p.applied == 0 {
      longer := chosen + [p.next];
      FirstApplyKeeps(s, chosen, k);
    } else {
      longer := chosen;
      KnownDelivery(s, Order(p)[p.applied], p.next);
      StillSerialised(s, t, chosen);
    }
  }

  lemma StillSerialised(s: State, t: State, chosen: seq<Document>)
    requires Forward(s, t) && Serialised(s, chosen)
    ensures Serialised(t, chosen)
  {
    forall i | 0 <= i < |chosen| - 1 ensures HasActive(chosen[i]) && Reached(t, First(chosen[i]), i + 2) {
      assert Reached(s, First(chosen[i]), i + 2);
    }
  }

  lemma CoreUnchanged(s: State, t: State, chosen: seq<Document>)
    requires Core(s, chosen)
    requires t.held == s.held && t.saved == s.saved && t.history == s.history
    ensures Core(t, chosen) && Forward(s, t)
  {
    assert HistoryOk(t, chosen) && NodesOk(t) && Serialised(t, chosen);
  }

  lemma NewProposalOk(s: State, current: Document, change: Change, skip: Option<NodeId>)
    requires current in s.history && HasActive(current) && Valid(current) && skip != Some(First(current))
    requires Successor(current, change).Some? && Valid(Successor(current, change).value)
    ensures ProposalOk(s, Proposal(current, Successor(current, change).value, skip, [], false, 0))
  {
    SuccessorDescends(current, change);
    SuccessorHasActive(current, change);
  }

  lemma ProposeKeeps(s: State, chosen: seq<Document>, e: Event)
    requires Invariant(s, chosen) && e.Propose? && Enabled(s, e) && Disciplined(s, e)
    ensures Invariant(Effect(s, e), chosen)
  {
    var t := Effect(s, e);
    CoreUnchanged(s, t, chosen);
    assert Valid(chosen[e.current.version - 1]);
    NewProposalOk(t, e.current, e.change, e.skip);
    forall p | p in t.proposals ensures ProposalOk(t, p) {
      if p in s.proposals {
        ProposalKept(s, t, p);
      }
    }
  }

  lemma FetchedOk(s: State, p: Proposal)
    requires NodesOk(s) && ProposalOk(s, p) && !p.applying && |p.fetched| < |Order(p)|
    requires Order(p)[|p.fetched|] in s.held
    ensures ProposalOk(s, p.(fetched := p.fetched + [s.held[Order(p)[|p.fetched|]]]))
  {
    var q := p.(fetched := p.fetched + [s.held[Order(p)[|p.fetched|]]]);
    assert Order(q) == Order(p);
    forall i | 0 <= i < |q.fetched| ensures Reached(s, Order(q)[i], q.fetched[i].version) {
      if i < |p.fetched| {
        assert q.fetched[i] == p.fetched[i];
      }
    }
  }

  lemma CheckedOk(s: State, p: Proposal)
    requires ProposalOk(s, p) && |p.fetched| == |Order(p)| && AllHold(p.fetched, p.current.version)
    ensures ProposalOk(s, p.(applying := true))
  {
    assert Order(p.(applying := true)) == Order(p);
  }

  lemma FetchOrCheckKeeps(s: State, chosen: seq<Document>, e: Event)
    requires Invariant(s, chosen) && (e.Fetch? || e.Check?) && Enabled(s, e)
    ensures Invariant(Effect(s, e), chosen)
  {
    var t, p := Effect(s, e), s.proposals[e.p];
    CoreUnchanged(s, t, chosen);
    assert p in s.proposals;
    ProposalKept(s, t, p);
    if e.Fetch? {
      FetchedOk(t, p);
    } else {
      CheckedOk(t, p);
    }
    OneProposalChanged(s, t, e.p, t.proposals[e.p]);
  }

  predicate NodeStep(e: Event) {
    e.Push? || e.Save? || e.Adopt? || e.Stop? || e.Start?
  }

  lemma NodeStepKeepsNodes(s: State, e: Event)
    requires NodesOk(s) && Enabled(s, e) && Disciplined(s, e) && NodeStep(e)
    ensures NodesOk(Effect(s, e)) && Effect(s, e).history == s.history
  {
  }

  /** Steps that touch one node's copies and no proposal. */
  lemma NodeStepKeeps(s: State, chosen: seq<Document>, e: Event)
    requires Core(s, chosen) && Enabled(s, e) && Disciplined(s, e) && NodeStep(e)
    ensures Core(Effect(s, e), chosen)
  {
    StepForward(s, e);
    NodeStepKeepsNodes(s, e);
    StillSerialised(s, Effect(s, e), chosen);
  }

  lemma NodeStepKeepsAll(s: State, chosen: seq<Document>, e: Event)
    requires Invariant(s, chosen) && Enabled(s, e) && Disciplined(s, e) && NodeStep(e)
    ensures Invariant(Effect(s, e), chosen)
  {
    StepForward(s, e);
    NodeStepKeeps(s, chosen, e);
    OthersKept(s, Effect(s, e));
  }

  /** Every step keeps the invariant, with the chain of chosen documents
      possibly one longer. */
  lemma StepKeeps(s: State, chosen: seq<Document>, e: Event) returns (longer: seq<Document>)
    requires Invariant(s, chosen) && Enabled(s, e) && Disciplined(s, e)
    ensures chosen <= longer && Invariant(Effect(s, e), longer)
  {
    longer := chosen;
    match e {
      case Propose(_, _, _) => ProposeKeeps(s, chosen, e);
      case Fetch(_) => FetchOrCheckKeeps(s, chosen, e);
      case Check(_) => FetchOrCheckKeeps(s, chosen, e);
      case Apply(k) => longer := ApplyKeeps(s, chosen, k);
      case _ => NodeStepKeepsAll(s, chosen, e);
    }
  }

  lemma {:induction false} RunKeeps(s: State, chosen: seq<Document>, events: seq<Event>) returns (longer: seq<Document>)
    requires Invariant(s, chosen) && Runs(s, events, true)
    ensures chosen <= longer && Invariant(After(s, events, true), longer)
    decreases |events|
  {
    longer := chosen;
    if events != [] {
      longer := StepKeeps(s, chosen, events[0]);
      longer := RunKeeps(Effect(s, events[0]), longer, events[1..]);
    }
  }

  lemma ReachableInvariant(d: Document, node: NodeId, events: seq<Event>) returns (chosen: seq<Document>)
    requires Founding(d, node) && Runs(Initial(d, node), events, true)
    ensures chosen != [] && chosen[0] == d
    ensures Invariant(After(Initial(d, node), events, true), chosen)
  {
    assert Descends(d, d);
    assert Invariant(Initial(d, node), [d]);
    chosen := RunKeeps(Initial(d, node), [d], events);
  }

  // ------------------------------------------------------------- theorems

  /** However proposals, pushes, joins, restarts, adoptions and crashes
      interleave, at most one document ever exists per version. */
  lemma AtMostOneDocumentPerVersion(d: Document, node: NodeId, events: seq<Event>, a: Document, b: Document)
    requires Founding(d, node) && Runs(Initial(d, node), events, true)
    requires a in After(Initial(d, node), events, true).history
    requires b in After(Initial(d, node), events, true).history
    requires a.version == b.version
    ensures a == b
  {
    var chosen := ReachableInvariant(d, node, events);
  }

  lemma HeldAlike(s: State, chosen: seq<Document>, x: NodeId, y: NodeId)
    requires HistoryOk(s, chosen) && NodesOk(s) && x in s.held && y in s.held
    ensures s.held[x].version == s.held[y].version ==> s.held[x] == s.held[y]
  {
  }

  /** Two nodes at the same version hold the same document. */
  lemma NodesAgree(d: Document, node: NodeId, events: seq<Event>, x: NodeId, y: NodeId)
    requires Founding(d, node) && Runs(Initial(d, node), events, true)
    requires x in After(Initial(d, node), events, true).held
    requires y in After(Initial(d, node), events, true).held
    ensures var s := After(Initial(d, node), events, true);
            s.held[x].version == s.held[y].version ==> s.held[x] == s.held[y]
  {
    var chosen := ReachableInvariant(d, node, events);
    HeldAlike(After(Initial(d, node), events, true), chosen, x, y);
  }

  lemma DescentKeepsTombstones(a: Document, b: Document, n: NodeId)
    requires Descends(a, b) && Distinct(NodeIds(b.nodes))
    ensures NodeIds(a.nodes) <= NodeIds(b.nodes)
    ensures ListedAs(a, n, Removed) ==> n !in ActiveIds(b.nodes)
  {
    if ListedAs(a, n, Removed) {
      var i :| 0 <= i < |a.nodes| && a.nodes[i].id == n && a.nodes[i].state == Removed;
      ActiveIdsMembers(b.nodes, n);
      forall e | e in b.nodes && e.id == n ensures e.state.Removed? {
        var j :| 0 <= j < |b.nodes| && b.nodes[j] == e;
        assert NodeIds(b.nodes)[i] == NodeIds(b.nodes)[j];
      }
    }
  }

  lemma LineOfDescent(s: State, chosen: seq<Document>, a: Document, b: Document)
    requires ChainOk(chosen) && HistoryOk(s, chosen)
    requires a in s.history && b in s.history && a.version <= b.version
    ensures Descends(a, b) && Distinct(NodeIds(b.nodes))
  {
    assert Valid(chosen[b.version - 1]) && Descends(chosen[a.version - 1], chosen[b.version - 1]);
  }

  /** The documents that ever existed are one line of descent: the node list
      is append-only and a removed node is never a member again. */
  lemma TombstonesAreForever(d: Document, node: NodeId, events: seq<Event>, a: Document, b: Document, n: NodeId)
    requires Founding(d, node) && Runs(Initial(d, node), events, true)
    requires a in After(Initial(d, node), events, true).history
    requires b in After(Initial(d, node), events, true).history
    requires a.version <= b.version
    ensures NodeIds(a.nodes) <= NodeIds(b.nodes)
    ensures ListedAs(a, n, Removed) ==> n !in ActiveIds(b.nodes)
  {
    var chosen := ReachableInvariant(d, node, events);
    LineOfDescent(After(Initial(d, node), events, true), chosen, a, b);
    DescentKeepsTombstones(a, b, n);
  }

  lemma AcceptedMeansReached(s: State, p: Proposal, n: NodeId)
    requires ProposalOk(s, p) && p.applied > 0
    requires n in ActiveIds(p.current.nodes) && p.skip != Some(n)
    ensures Reached(s, n, p.current.version)
  {
    WithoutMembers(ActiveIds(p.current.nodes), p.skip, n);
    var i :| 0 <= i < |Order(p)| && Order(p)[i] == n;
    assert p.fetched[i] in p.fetched;
  }

  lemma AtMostOneBehind(s: State, chosen: seq<Document>, p: Proposal, n: NodeId)
    requires Core(s, chosen) && ProposalOk(s, p) && p.applied > 0
    requires forall x :: x in s.history ==> x.version <= p.next.version
    requires n in s.held && Reached(s, n, p.current.version)
    ensures s.held[n] == p.current || s.held[n] == p.next
  {
  }

  /** Every document that ever existed, but the founding one, is the successor
      some proposal got accepted. */
  ghost predicate AllProposed(s: State, founding: Document) {
    forall x :: x in s.history ==> x == founding || Accepted(s, x)
  }

  ghost predicate Accepted(s: State, x: Document) {
    exists k :: 0 <= k < |s.proposals| && s.proposals[k].applied > 0 && s.proposals[k].next == x
  }

  lemma StillAccepted(s: State, e: Event, x: Document)
    requires Enabled(s, e) && Accepted(s, x)
    ensures Accepted(Effect(s, e), x)
  {
    var k :| 0 <= k < |s.proposals| && s.proposals[k].applied > 0 && s.proposals[k].next == x;
    assert Effect(s, e).proposals[k].applied > 0 && Effect(s, e).proposals[k].next == x;
  }

  lemma StepProposes(s: State, e: Event, founding: Document)
    requires Enabled(s, e) && AllProposed(s, founding)
    ensures AllProposed(Effect(s, e), founding)
  {
    var t := Effect(s, e);
    forall x | x in t.history ensures x == founding || Accepted(t, x) {
      if x in s.history {
        if x != founding {
          StillAccepted(s, e, x);
        }
      } else if e.Apply? {
        assert t.proposals[e.p].applied > 0 && t.proposals[e.p].next == x;
      }
    }
  }

  lemma {:induction false} RunProposes(s: State, events: seq<Event>, founding: Document)
    requires Runs(s, events, true) && AllProposed(s, founding)
    ensures AllProposed(After(s, events, true), founding)
    decreases |events|
  {
    if events != [] {
      StepProposes(s, events[0], founding);
      RunProposes(Effect(s, events[0]), events[1..], founding);
    }
  }

  /** `p` is an accepted proposal of the newest document there is. */
  ghost predicate ProposesNewest(s: State, p: Proposal) {
    p in s.proposals && p.applied > 0 && p.next in s.history && forall x :: x in s.history ==> x.version <= p.next.version
  }

  /** Every running member of the base, but the one skipped, holds the base or
      the newest. */
  ghost predicate AtMostOneLag(s: State, p: Proposal) {
    forall n <- ActiveIds(p.current.nodes) :: n in s.held && p.skip != Some(n) ==> s.held[n] == p.current || s.held[n] == p.next
  }

  lemma NewestProposed(s: State, chosen: seq<Document>, founding: Document) returns (p: Proposal)
    requires HistoryOk(s, chosen) && |chosen| >= 2 && chosen[0] == founding && ChainOk(chosen) && AllProposed(s, founding)
    ensures ProposesNewest(s, p) && p.next == chosen[|chosen| - 1]
  {
    var newest := chosen[|chosen| - 1];
    assert newest in s.history && newest.version == |chosen| && founding.version == 1;
    var k :| 0 <= k < |s.proposals| && s.proposals[k].applied > 0 && s.proposals[k].next == newest;
    p := s.proposals[k];
  }

  lemma LagOf(s: State, chosen: seq<Document>, p: Proposal)
    requires Invariant(s, chosen) && ProposesNewest(s, p)
    ensures AtMostOneLag(s, p)
  {
    forall n | n in ActiveIds(p.current.nodes) && n in s.held && p.skip != Some(n)
      ensures s.held[n] == p.current || s.held[n] == p.next
    {
      AcceptedMeansReached(s, p, n);
      AtMostOneBehind(s, chosen, p, n);
    }
  }

  /** Bounded lag: in every reachable state with a document beyond the founding
      one, the newest document is the successor of an accepted proposal, and
      for every such proposal each running member of its base, except the one
      it skipped, holds the base or the newest. */
  lemma BoundedLag(d: Document, node: NodeId, events: seq<Event>)
    requires Founding(d, node) && Runs(Initial(d, node), events, true)
    requires exists x :: x in After(Initial(d, node), events, true).history && x.version >= 2
    ensures exists p :: ProposesNewest(After(Initial(d, node), events, true), p)
    ensures forall p :: ProposesNewest(After(Initial(d, node), events, true), p) ==>
              AtMostOneLag(After(Initial(d, node), events, true), p)
  {
    var s := After(Initial(d, node), events, true);
    var chosen := ReachableInvariant(d, node, events);
    RunProposes(Initial(d, node), events, d);
    var x :| x in s.history && x.version >= 2;
    var newest := NewestProposed(s, chosen, d);
    forall p | ProposesNewest(s, p) ensures AtMostOneLag(s, p) {
      LagOf(s, chosen, p);
    }
  }

  lemma Overtaken(s: State, chosen: seq<Document>, earlier: Document, newer: Document)
    requires HistoryOk(s, chosen) && Serialised(s, chosen) && earlier in s.history && newer in s.history
    requires earlier.version < newer.version
    ensures HasActive(earlier) && Reached(s, First(earlier), earlier.version + 1)
  {
    assert First(chosen[earlier.version - 1]) == First(earlier);
  }

  /** A document that is no longer the newest has been overtaken at its own
      first member, so a sync that asks the members it knows of always finds
      something newer while there is anything newer to find. */
  lemma OvertakenAtTheFirstMember(d: Document, node: NodeId, events: seq<Event>, earlier: Document, newer: Document)
    requires Founding(d, node) && Runs(Initial(d, node), events, true)
    requires earlier in After(Initial(d, node), events, true).history
    requires newer in After(Initial(d, node), events, true).history
    requires earlier.version < newer.version
    ensures HasActive(earlier)
    ensures Reached(After(Initial(d, node), events, true), First(earlier), earlier.version + 1)
  {
    var chosen := ReachableInvariant(d, node, events);
    Overtaken(After(Initial(d, node), events, true), chosen, earlier, newer);
  }

  // --------------------------------------------------- without discipline

  lemma {:induction false} RunsConcat(s: State, a: seq<Event>, b: seq<Event>)
    requires Runs(s, a, false) && Runs(After(s, a, false), b, false)
    ensures Runs(s, a + b, false) && After(s, a + b, false) == After(After(s, a, false), b, false)
    decreases |a|
  {
    if a == [] {
      assert a + b == b;
    } else {
      RunsConcat(Effect(s, a[0]), a[1..], b);
      assert (a + b)[1..] == a[1..] + b;
    }
  }

  /** Some run, disciplined or not, leads from `s` to `t`. */
  ghost predicate Leads(s: State, t: State) {
    exists events :: Runs(s, events, false) && After(s, events, false) == t
  }

  lemma LeadsBy(s: State, e: Event)
    requires Enabled(s, e)
    ensures Leads(s, Effect(s, e))
  {
    assert Runs(Effect(s, e), [], false);
    assert Runs(s, [e], false) && After(s, [e], false) == Effect(s, e);
  }

  lemma LeadsOn(s: State, t: State, u: State)
    requires Leads(s, t) && Leads(t, u)
    ensures Leads(s, u)
  {
    var a :| Runs(s, a, false) && After(s, a, false) == t;
    var b :| Runs(t, b, false) && After(t, b, false) == u;
    RunsConcat(s, a, b);
  }

  function Copies(d: Document, n: nat): seq<Document> {
    seq(n, _ => d)
  }

  ghost predicate Waiting(s: State, k: nat, n: nat) {
    && k < |s.proposals| && !s.proposals[k].applying && s.proposals[k].applied == 0
    && n <= |Order(s.proposals[k])| && s.proposals[k].fetched == Copies(s.proposals[k].current, n)
    && (forall x <- Order(s.proposals[k]) :: x in s.held && s.held[x] == s.proposals[k].current)
  }

  function Cleared(s: State, k: nat): State
    requires k < |s.proposals|
  {
    var p := s.proposals[k];
    s.(proposals := s.proposals[k := p.(fetched := Copies(p.current, |Order(p)|), applying := true)])
  }

  /** A proposal whose targets all hold the document it was built from passes
      its check. */
  lemma {:induction false} CheckPasses(s: State, k: nat, n: nat)
    requires Waiting(s, k, n)
    ensures Leads(s, Cleared(s, k))
    decreases |Order(s.proposals[k])| - n
  {
    var p := s.proposals[k];
    if n == |Order(p)| {
      LeadsBy(s, Check(k));
    } else {
      LeadsBy(s, Fetch(k));
      var t := Effect(s, Fetch(k));
      assert Copies(p.current, n) + [p.current] == Copies(p.current, n + 1);
      assert Order(t.proposals[k]) == Order(p);
      CheckPasses(t, k, n + 1);
      assert Cleared(t, k) == Cleared(s, k);
      LeadsOn(s, t, Cleared(s, k));
    }
  }

  /** A proposal that has passed its check and been applied nowhere. */
  function Ready(d: Document, c: Change, skip: Option<NodeId>): Proposal
    requires Successor(d, c).Some?
  {
    Proposal(d, Successor(d, c).value, skip, Copies(d, |Targets(d, skip)|), true, 0)
  }

  lemma BecomesReady(s: State, d: Document, c: Change, skip: Option<NodeId>)
    requires d in s.history && Successor(d, c).Some? && Valid(Successor(d, c).value)
    requires forall x <- Targets(d, skip) :: x in s.held && s.held[x] == d
    ensures Leads(s, s.(proposals := s.proposals + [Ready(d, c, skip)]))
  {
    var e := Propose(d, c, skip);
    LeadsBy(s, e);
    var t, k := Effect(s, e), |s.proposals|;
    assert Order(t.proposals[k]) == Targets(d, skip);
    assert Copies(d, 0) == [];
    CheckPasses(t, k, 0);
    var u := s.(proposals := s.proposals + [Ready(d, c, skip)]);
    assert Cleared(t, k) == u;
    LeadsOn(s, t, u);
  }

  lemma ReadyIsAccepted(s: State, k: nat, d: Document, c: Change, skip: Option<NodeId>, n: NodeId) returns (t: State)
    requires Successor(d, c).Some? && k < |s.proposals| && s.proposals[k] == Ready(d, c, skip)
    requires Targets(d, skip) != [] && Targets(d, skip)[0] == n && n in s.held && s.held[n] == d
    ensures Leads(s, t)
    ensures t.held == s.held[n := Successor(d, c).value] && t.history == s.history + {Successor(d, c).value}
    ensures |t.proposals| == |s.proposals| && forall j :: 0 <= j < |s.proposals| && j != k ==> t.proposals[j] == s.proposals[j]
  {
    SuccessorDescends(d, c);
    assert Order(s.proposals[k]) == Targets(d, skip);
    LeadsBy(s, Apply(k));
    t := Effect(s, Apply(k));
  }

  /** Skipping the first member breaks agreement, whatever the document: from
      any state where all members hold `d`, and for any two different
      successors, some run leaves the first two members each with its own at
      one version. */
  lemma SkippingTheFirstMemberForks(s: State, d: Document, c1: Change, c2: Change) returns (t: State)
    requires Valid(d) && |ActiveIds(d.nodes)| >= 2 && d in s.history
    requires forall n <- ActiveIds(d.nodes) :: n in s.held && s.held[n] == d
    requires Successor(d, c1).Some? && Valid(Successor(d, c1).value)
    requires Successor(d, c2).Some? && Valid(Successor(d, c2).value) && Successor(d, c1) != Successor(d, c2)
    ensures Leads(s, t)
    ensures var f, g := First(d), ActiveIds(d.nodes)[1];
            && f in t.held && g in t.held && t.held[f] == Successor(d, c2).value && t.held[g] == Successor(d, c1).value
            && t.held[f] != t.held[g] && t.held[f].version == t.held[g].version == d.version + 1
  {
    var f, g, k := First(d), ActiveIds(d.nodes)[1], |s.proposals|;
    SuccessorDescends(d, c1);
    SuccessorDescends(d, c2);
    ActiveIdsDistinct(d.nodes);
    SkippedOrder(d);
    TwoReady(s, d, c1, Some(f), c2, None);
    var s2 := s.(proposals := s.proposals + [Ready(d, c1, Some(f))] + [Ready(d, c2, None)]);
    t := BothAccepted(s2, k, d, c1, Some(f), g, c2, None, f);
    LeadsOn(s, s2, t);
  }

  /** Two cleared proposals whose first targets differ are both accepted. */
  lemma BothAccepted(s: State, k: nat, d: Document, c1: Change, skip1: Option<NodeId>, n1: NodeId, c2: Change,
                     skip2: Option<NodeId>, n2: NodeId)
    returns (t: State)
    requires Successor(d, c1).Some? && Successor(d, c2).Some? && k + 1 < |s.proposals|
    requires s.proposals[k] == Ready(d, c1, skip1) && s.proposals[k + 1] == Ready(d, c2, skip2)
    requires Targets(d, skip1) != [] && Targets(d, skip1)[0] == n1 && n1 in s.held && s.held[n1] == d
    requires Targets(d, skip2) != [] && Targets(d, skip2)[0] == n2 && n2 in s.held && s.held[n2] == d && n1 != n2
    ensures Leads(s, t)
    ensures t.held == s.held[n1 := Successor(d, c1).value][n2 := Successor(d, c2).value]
  {
    var s1 := ReadyIsAccepted(s, k, d, c1, skip1, n1);
    t := ReadyIsAccepted(s1, k + 1, d, c2, skip2, n2);
    LeadsOn(s, s1, t);
  }

  /** Two proposals on one document can both be cleared to apply. */
  lemma TwoReady(s: State, d: Document, c1: Change, skip1: Option<NodeId>, c2: Change, skip2: Option<NodeId>)
    requires Valid(d) && d in s.history && Successor(d, c1).Some? && Valid(Successor(d, c1).value)
    requires Successor(d, c2).Some? && Valid(Successor(d, c2).value)
    requires forall n <- Targets(d, skip1) :: n in s.held && s.held[n] == d
    requires forall n <- Targets(d, skip2) :: n in s.held && s.held[n] == d
    ensures Leads(s, s.(proposals := s.proposals + [Ready(d, c1, skip1)] + [Ready(d, c2, skip2)]))
  {
    BecomesReady(s, d, c1, skip1);
    var s1 := s.(proposals := s.proposals + [Ready(d, c1, skip1)]);
    BecomesReady(s1, d, c2, skip2);
    LeadsOn(s, s1, s1.(proposals := s1.proposals + [Ready(d, c2, skip2)]));
  }

  lemma SkippedOrder(d: Document)
    requires Distinct(ActiveIds(d.nodes)) && |ActiveIds(d.nodes)| >= 2
    ensures Targets(d, Some(First(d))) != [] && Targets(d, Some(First(d)))[0] == ActiveIds(d.nodes)[1]
    ensures Targets(d, None) != [] && Targets(d, None)[0] == First(d)
    ensures forall n <- Targets(d, Some(First(d))) :: n in ActiveIds(d.nodes)
    ensures forall n <- Targets(d, None) :: n in ActiveIds(d.nodes)
  {
    var ids := ActiveIds(d.nodes);
    assert ids[1..][0] == ids[1] && ids[0] != ids[1];
    assert Without(ids, Some(ids[0])) == Without(ids[1..], Some(ids[0]));
    forall n | n in Targets(d, Some(First(d))) ensures n in ids {
      WithoutMembers(ids, Some(First(d)), n);
    }
    forall n | n in Targets(d, None) ensures n in ids {
      WithoutMembers(ids, None, n);
    }
  }

  lemma SavedAndRestarted(s: State, n: NodeId, d: Document) returns (t: State)
    requires d in s.history && ListedAs(d, n, Active)
    ensures Leads(s, t) && t == s.(saved := s.saved[n := d], held := s.held[n := d])
  {
    LeadsBy(s, Save(n, d));
    var s1 := Effect(s, Save(n, d));
    LeadsBy(s1, Start(n));
    t := Effect(s1, Start(n));
    LeadsOn(s, s1, t);
  }

  /** Writing an older document over a newer one on the disk of its first
      member breaks agreement as long as the other members still hold it: after
      a restart the first member accepts a successor other than the one there
      was, and two documents exist at one version. */
  lemma RegressingSaveForks(s: State, d: Document, newer: Document, c: Change) returns (t: State)
    requires HasActive(d) && d in s.history
    requires forall n <- ActiveIds(d.nodes) :: n != First(d) ==> n in s.held && s.held[n] == d
    requires newer in s.history && newer.version == d.version + 1
    requires Successor(d, c).Some? && Valid(Successor(d, c).value) && Successor(d, c).value != newer
    ensures Leads(s, t)
    ensures newer in t.history && exists other :: other in t.history && other != newer && other.version == newer.version
  {
    SuccessorDescends(d, c);
    ActiveIdsMembers(d.nodes, First(d));
    var s2 := SavedAndRestarted(s, First(d), d);
    WithoutNone(ActiveIds(d.nodes));
    BecomesReady(s2, d, c, None);
    var s3 := s2.(proposals := s2.proposals + [Ready(d, c, None)]);
    LeadsOn(s, s2, s3);
    t := ReadyIsAccepted(s3, |s2.proposals|, d, c, None, First(d));
    LeadsOn(s, s3, t);
    assert Successor(d, c).value in t.history;
  }
}
