/** The propose/receive protocol of several miners over a network that loses, repeats and reorders
    headers. Only the calls to the DAG are locked, so that a proposal is five steps: it reads the tips,
    reads the miner's round into the header, adds the header, loads the round and stores it raised by
    one. A receipt is five steps too: the sender is admitted, the header is added, the last delivered
    round is read, compared with the miner's round, and written if it was larger. Anything may happen in
    between, other calls of the same miner included. Authors that do not run the protocol inject whatever
    they like under their own name. */
module CordialMiners {
  import opened Blocklace
  import opened BlocklaceRounds

  /** A proposal under way: its tips are read, its header is built, the header was added and sent, or
      the round was loaded to be raised. `own` records the miner's own headers at the time the tips were
      read. */
  datatype Draft =
    | Drawn(tips: seq<ID>, own: set<ID>)
    | Built(tips: seq<ID>, own: set<ID>, height: nat)
    | Added(id: ID, height: nat)
    | Raising(id: ID, height: nat, loaded: nat)

  /** The header of the draft is not added yet. */
  predicate Open(d: Draft) {
    d.Drawn? || d.Built?
  }

  /** A miner, with its calls under way: proposals; headers admitted and not yet added; `receiving` headers
      added whose receipt has yet to read the last delivered round; rounds read and not yet compared; and
      rounds that were larger than the miner's when compared and are about to be written. */
  datatype Miner = Miner(
    dag: State,
    round: nat,
    drafts: seq<Draft>,
    admitted: seq<ID>,
    receiving: nat,
    seen: seq<nat>,
    behind: seq<nat>)

  /** A miner without calls under way. */
  ghost function Idle(dag: State, round: nat): Miner {
    Miner(dag, round, [], [], 0, [], [])
  }

  datatype Message = Message(header: Header, author: NodeID)

  /** What was sent, and the proposals that their own author's DAG refused. */
  datatype Net = Net(miners: map<NodeID, Miner>, sent: map<ID, Message>, refused: map<ID, Message>)

  datatype Action =
    | TakeTips(miner: NodeID, tips: seq<ID>)
    | ReadRound(miner: NodeID, k: nat)
    | Propose(miner: NodeID, k: nat, id: ID)
    | LoadRound(miner: NodeID, k: nat)
    | StoreRound(miner: NodeID, k: nat)
    | Admit(miner: NodeID, id: ID)
    | Receive(miner: NodeID, k: nat)
    | ReadSequence(miner: NodeID)
    | Compare(miner: NodeID, k: nat)
    | WriteRound(miner: NodeID, k: nat)
    | Inject(header: Header, author: NodeID)

  /** The non-genesis vertices of an author. */
  ghost function Own(s: State, m: NodeID): set<ID> {
    set x | x in s.vertices && x != GENESIS && s.vertices[x].author == m
  }

  predicate Fresh(net: Net, id: ID) {
    id !in net.sent && id !in net.refused && id != GENESIS
  }

  ghost predicate Enabled(net: Net, act: Action) {
    match act
    case TakeTips(m, tips) =>
      m in net.miners && |tips| == |net.miners[m].dag.tips| && forall x :: x in tips <==> x in net.miners[m].dag.tips
    case ReadRound(m, k) => m in net.miners && k < |net.miners[m].drafts| && net.miners[m].drafts[k].Drawn?
    case Propose(m, k, id) =>
      m in net.miners && k < |net.miners[m].drafts| && net.miners[m].drafts[k].Built? && Fresh(net, id)
    case LoadRound(m, k) => m in net.miners && k < |net.miners[m].drafts| && net.miners[m].drafts[k].Added?
    case StoreRound(m, k) => m in net.miners && k < |net.miners[m].drafts| && net.miners[m].drafts[k].Raising?
    case Admit(m, id) => m in net.miners && id in net.sent && net.sent[id].author !in net.miners[m].dag.byzantine
    case Receive(m, k) => m in net.miners && k < |net.miners[m].admitted| && net.miners[m].admitted[k] in net.sent
    case ReadSequence(m) => m in net.miners && net.miners[m].receiving > 0
    case Compare(m, k) => m in net.miners && k < |net.miners[m].seen|
    case WriteRound(m, k) => m in net.miners && k < |net.miners[m].behind|
    case Inject(h, a) => a !in net.miners && Fresh(net, h.id)
  }

  function Without<T>(s: seq<T>, k: nat): seq<T>
    requires k < |s|
  {
    s[..k] + s[k + 1..]
  }

  // -------------------------------------------------------------------------------------------
  // The steps of a proposal

  ghost function Taken(m: Miner, tips: seq<ID>, self: NodeID): Miner {
    m.(drafts := m.drafts + [Drawn(tips, Own(m.dag, self))])
  }

  ghost function RoundRead(m: Miner, k: nat): Miner
    requires k < |m.drafts| && m.drafts[k].Drawn?
  {
    m.(drafts := m.drafts[k := Built(m.drafts[k].tips, m.drafts[k].own, m.round)])
  }

  /** The header that a draft has become. */
  ghost function HeaderOf(d: Draft, id: ID): Header
    requires d.Built?
  {
    Header(id, d.tips, d.height)
  }

  ghost function Proposed(m: Miner, k: nat, id: ID, self: NodeID): (Miner, Outcome)
    requires k < |m.drafts| && m.drafts[k].Built?
  {
    var d := m.drafts[k];
    var (dag, outcome) := AddHeader(m.dag, HeaderOf(d, id), self);
    (m.(dag := dag, drafts := if outcome.Accepted? then m.drafts[k := Added(id, d.height)] else Without(m.drafts, k)),
     outcome)
  }

  ghost function Loaded(m: Miner, k: nat): Miner
    requires k < |m.drafts| && m.drafts[k].Added?
  {
    m.(drafts := m.drafts[k := Raising(m.drafts[k].id, m.drafts[k].height, m.round)])
  }

  ghost function Stored(m: Miner, k: nat): Miner
    requires k < |m.drafts| && m.drafts[k].Raising?
  {
    m.(round := m.drafts[k].loaded + 1, drafts := Without(m.drafts, k))
  }

  // -------------------------------------------------------------------------------------------
  // The steps of a receipt

  ghost function Received(m: Miner, k: nat, msg: Message): (Miner, Outcome)
    requires k < |m.admitted|
  {
    var (dag, outcome) := AddHeader(m.dag, msg.header, msg.author);
    (m.(dag := dag, admitted := Without(m.admitted, k),
        receiving := if outcome.Accepted? then m.receiving + 1 else m.receiving),
     outcome)
  }

  ghost function SequenceRead(m: Miner): Miner
    requires m.receiving > 0
  {
    m.(receiving := m.receiving - 1, seen := m.seen + [LastRound(m.dag)])
  }

  ghost function Compared(m: Miner, k: nat): Miner
    requires k < |m.seen|
  {
    m.(seen := Without(m.seen, k), behind := if m.seen[k] > m.round then m.behind + [m.seen[k]] else m.behind)
  }

  ghost function Written(m: Miner, k: nat): Miner
    requires k < |m.behind|
  {
    m.(round := m.behind[k], behind := Without(m.behind, k))
  }

  /** Reading, comparing and writing in a row. */
  ghost function CaughtUp(m: Miner): Miner
    requires m.receiving > 0
  {
    var compared := Compared(SequenceRead(m), |m.seen|);
    if |compared.behind| > |m.behind| then Written(compared, |m.behind|) else compared
  }

  ghost function Next(net: Net, act: Action): Net
    requires Enabled(net, act)
  {
    match act
    case TakeTips(m, tips) => net.(miners := net.miners[m := Taken(net.miners[m], tips, m)])
    case ReadRound(m, k) => net.(miners := net.miners[m := RoundRead(net.miners[m], k)])
    case Propose(m, k, id) =>
      var (miner, outcome) := Proposed(net.miners[m], k, id, m);
      var msg := Message(HeaderOf(net.miners[m].drafts[k], id), m);
      if outcome.Accepted? then Net(net.miners[m := miner], net.sent[id := msg], net.refused)
      else Net(net.miners[m := miner], net.sent, net.refused[id := msg])
    case LoadRound(m, k) => net.(miners := net.miners[m := Loaded(net.miners[m], k)])
    case StoreRound(m, k) => net.(miners := net.miners[m := Stored(net.miners[m], k)])
    case Admit(m, id) =>
      net.(miners := net.miners[m := net.miners[m].(admitted := net.miners[m].admitted + [id])])
    case Receive(m, k) =>
      net.(miners := net.miners[m := Received(net.miners[m], k, net.sent[net.miners[m].admitted[k]]).0])
    case ReadSequence(m) => net.(miners := net.miners[m := SequenceRead(net.miners[m])])
    case Compare(m, k) => net.(miners := net.miners[m := Compared(net.miners[m], k)])
    case WriteRound(m, k) => net.(miners := net.miners[m := Written(net.miners[m], k)])
    case Inject(h, a) => net.(sent := net.sent[h.id := Message(h, a)])
  }

  ghost predicate Init(net: Net) {
    net.sent == map[] && net.refused == map[] && forall m :: m in net.miners ==> net.miners[m] == Idle(START, 0)
  }

  // -------------------------------------------------------------------------------------------
  // Invariant

  /** All that a replica holds, apart from genesis, was sent, by the author it is attributed to. */
  ghost predicate FromNetwork(net: Net, g: Graph) {
    forall x :: x in g && x != GENESIS ==> x in net.sent && net.sent[x] == Message(g[x].header, g[x].author)
  }

  ghost predicate SentRight(net: Net) {
    forall x :: x in net.sent ==>
      && net.sent[x].header.id == x && x != GENESIS
      && (net.sent[x].author in net.miners ==> x in net.miners[net.sent[x].author].dag.vertices)
  }

  /** The author made this header, whether it was sent or refused. */
  predicate Made(net: Net, y: ID, msg: Message) {
    (y in net.sent && net.sent[y] == msg) || (y in net.refused && net.refused[y] == msg)
  }

  /** `x` and `y` are two different headers of `author`; the replica holds the first, and the second
      has the same round. */
  ghost predicate Conflict(net: Net, g: Graph, author: NodeID, x: ID, y: ID) {
    && x in g && x != GENESIS && g[x].author == author && x != y
    && exists ps, height ::
         && Made(net, y, Message(Header(y, ps, height), author))
         && AllIn(g, ps) && RoundOf(g, ps) == g[x].round
  }

  /** A replica flags nobody without a conflict, and of those who run the protocol only itself. */
  ghost predicate FlagsRight(net: Net, r: NodeID, s: State) {
    forall a :: a in s.byzantine ==>
      (a == r || a !in net.miners) && exists x, y :: Conflict(net, s.vertices, a, x, y)
  }

  /** A header on these predecessors comes after every one of these vertices. */
  ghost predicate Covers(s: State, ps: seq<ID>, own: set<ID>) {
    && AllIn(s.vertices, ps)
    && forall x :: x in own ==>
         x in s.vertices && ps != [] && s.vertices[x].round <= MaxRound(s.vertices, ps)
  }

  /** Every draft covers the headers that its miner had when the tips were read. */
  ghost predicate DraftsCover(m: Miner) {
    forall d :: d in m.drafts && Open(d) ==> Covers(m.dag, d.tips, d.own)
  }

  ghost predicate ReplicaRight(net: Net, r: NodeID)
    requires r in net.miners
  {
    var s := net.miners[r].dag;
    Valid(s) && FromNetwork(net, s.vertices) && FlagsRight(net, r, s) && DraftsCover(net.miners[r])
  }

  ghost predicate Inv(net: Net) {
    SentRight(net) && forall r :: r in net.miners ==> ReplicaRight(net, r)
  }

  lemma InitInv(net: Net)
    requires Init(net)
    ensures Inv(net)
  {
    StartValid();
  }

  lemma NetworkCompatible(net: Net, g: Graph, g': Graph)
    requires FromNetwork(net, g) && FromNetwork(net, g') && WellFormed(g) && WellFormed(g')
    ensures Compatible(g, g')
  {
    hide RoundOf;
  }

  /** A header sent by a miner never looks like an equivocation to another replica. */
  lemma NoFalseAlarm(net: Net, r: NodeID, id: ID)
    requires Inv(net) && r in net.miners && id in net.sent && net.sent[id].author in net.miners
    requires AllIn(net.miners[r].dag.vertices, net.sent[id].header.predecessors)
    ensures !Equivocates(net.miners[r].dag, net.sent[id].header, net.sent[id].author)
  {
    hide Causal, Inverse, RoundOf, FlagsRight, DraftsCover;
    var m, ps := net.sent[id].author, net.sent[id].header.predecessors;
    assert ReplicaRight(net, r) && ReplicaRight(net, m);
    var s, g := net.miners[r].dag, net.miners[m].dag.vertices;
    NetworkCompatible(net, s.vertices, g);
    assert g[id].round == RoundOf(g, ps);
    RoundOfAgrees(s.vertices, g, ps);
    forall x | x in Tracked(s, m) && x in s.vertices && x != id
      ensures s.vertices[x].round != RoundOf(s.vertices, ps)
    {
      assert x in net.sent && net.sent[x].author == m;
      RoundsAgree(s.vertices, g, x);
      assert !Rivals(g, x, id);
    }
  }

  // -------------------------------------------------------------------------------------------
  // What lasts while headers are added

  ghost predicate NetGrows(net: Net, net': Net) {
    && net'.miners.Keys == net.miners.Keys
    && (forall x :: x in net.sent ==> x in net'.sent && net'.sent[x] == net.sent[x])
    && (forall x :: x in net.refused ==> x in net'.refused && net'.refused[x] == net.refused[x])
  }

  lemma ConflictLasts(net: Net, net': Net, g: Graph, g': Graph, a: NodeID, x: ID, y: ID)
    requires NetGrows(net, net') && Extends(g, g') && Conflict(net, g, a, x, y)
    ensures Conflict(net', g', a, x, y)
  {
    hide RoundOf;
    var ps, height :| Made(net, y, Message(Header(y, ps, height), a)) && AllIn(g, ps) && RoundOf(g, ps) == g[x].round;
    RoundOfSame(g, g', ps);
    assert Made(net', y, Message(Header(y, ps, height), a));
  }

  lemma FlagsLast(net: Net, net': Net, r: NodeID, s: State, s': State)
    requires NetGrows(net, net') && FlagsRight(net, r, s) && Extends(s.vertices, s'.vertices)
    requires s'.byzantine == s.byzantine
    ensures FlagsRight(net', r, s')
  {
    hide Conflict;
    forall a | a in s'.byzantine
      ensures (a == r || a !in net'.miners) && exists x, y :: Conflict(net', s'.vertices, a, x, y)
    {
      var x, y :| Conflict(net, s.vertices, a, x, y);
      ConflictLasts(net, net', s.vertices, s'.vertices, a, x, y);
    }
  }

  lemma CoverLasts(s: State, s': State, ps: seq<ID>, own: set<ID>)
    requires Covers(s, ps, own) && Extends(s.vertices, s'.vertices)
    ensures Covers(s', ps, own)
  {
    hide MaxRound;
    MaxRoundSame(s.vertices, s'.vertices, ps);
  }

  /** Steps that add no header leave a replica right, if new drafts cover what they should. */
  lemma ReplicaLasts(net: Net, net': Net, r: NodeID)
    requires r in net.miners && ReplicaRight(net, r) && NetGrows(net, net')
    requires net'.miners[r].dag == net.miners[r].dag && DraftsCover(net'.miners[r])
    ensures ReplicaRight(net', r)
  {
    hide Valid, FlagsRight, DraftsCover;
    FlagsLast(net, net', r, net.miners[r].dag, net.miners[r].dag);
  }

  lemma FlagOne(net: Net, r: NodeID, s: State, a: NodeID)
    requires FlagsRight(net, r, s)
    requires (a == r || a !in net.miners) && exists x, y :: Conflict(net, s.vertices, a, x, y)
    ensures FlagsRight(net, r, s.(byzantine := s.byzantine + {a}))
  {
    hide Conflict;
  }

  lemma FlagAdded(net: Net, net': Net, r: NodeID, s: State, h: Header, a: NodeID)
    requires NetGrows(net, net') && FlagsRight(net, r, s) && Valid(s)
    requires AllIn(s.vertices, h.predecessors) && Equivocates(s, h, a)
    requires (a == r || a !in net.miners) && Made(net', h.id, Message(h, a))
    ensures FlagsRight(net', r, s.(byzantine := s.byzantine + {a}))
  {
    hide RoundOf, WellFormed, Inverse, Causal, FlagsRight;
    FlagsLast(net, net', r, s, s);
    var x :| x in Tracked(s, a) && x in s.vertices && x != h.id
             && s.vertices[x].round == RoundOf(s.vertices, h.predecessors);
    assert Made(net', h.id, Message(Header(h.id, h.predecessors, h.height), a));
    assert Conflict(net', s.vertices, a, x, h.id);
    FlagOne(net', r, s, a);
  }

  /** A replica stays right when it adds a header that was made by its author. */
  lemma ReplicaAdds(net: Net, net': Net, r: NodeID, h: Header, a: NodeID)
    requires r in net.miners && ReplicaRight(net, r) && NetGrows(net, net')
    requires net'.miners[r].dag == AddHeader(net.miners[r].dag, h, a).0
    requires forall d :: d in net'.miners[r].drafts && Open(d) ==> d in net.miners[r].drafts
    requires AddHeader(net.miners[r].dag, h, a).1.Accepted? ==> h.id in net'.sent && net'.sent[h.id] == Message(h, a)
    requires AddHeader(net.miners[r].dag, h, a).1.Equivocation? ==>
      (a == r || a !in net.miners) && Made(net', h.id, Message(h, a))
    ensures ReplicaRight(net', r)
  {
    hide Valid, FlagsRight, AddHeader, DraftsCover, FromNetwork;
    var s := net.miners[r].dag;
    AddHeaderValid(s, h, a);
    FlagsAfter(net, net', r, s, h, a);
    NetworkAfter(net, net', s, h, a);
    DraftsLast(net.miners[r], net'.miners[r]);
  }

  lemma FlagsAfter(net: Net, net': Net, r: NodeID, s: State, h: Header, a: NodeID)
    requires NetGrows(net, net') && FlagsRight(net, r, s) && Valid(s)
    requires AddHeader(s, h, a).1.Equivocation? ==>
      (a == r || a !in net.miners) && Made(net', h.id, Message(h, a))
    ensures FlagsRight(net', r, AddHeader(s, h, a).0)
  {
    hide Valid, FlagsRight, Equivocates, RoundOf, Insert;
    AddHeaderValid(s, h, a);
    if AddHeader(s, h, a).1.Equivocation? {
      FlagAdded(net, net', r, s, h, a);
    } else {
      if h.id !in s.vertices && AllIn(s.vertices, h.predecessors) {
        InsertKeepsFlags(s, h, a);
      }
      FlagsLast(net, net', r, s, AddHeader(s, h, a).0);
    }
  }

  lemma NetworkAfter(net: Net, net': Net, s: State, h: Header, a: NodeID)
    requires NetGrows(net, net') && FromNetwork(net, s.vertices)
    requires AddHeader(s, h, a).1.Accepted? ==> h.id in net'.sent && net'.sent[h.id] == Message(h, a)
    ensures FromNetwork(net', AddHeader(s, h, a).0.vertices)
  {
    hide Equivocates, RoundOf, Insert;
    if h.id !in s.vertices && AllIn(s.vertices, h.predecessors) {
      InsertExtends(s, h, a);
    }
  }

  lemma DraftsLast(m: Miner, m': Miner)
    requires DraftsCover(m) && Extends(m.dag.vertices, m'.dag.vertices)
    requires forall d :: d in m'.drafts && Open(d) ==> d in m.drafts
    ensures DraftsCover(m')
  {
    hide Covers;
    forall d | d in m'.drafts && Open(d)
      ensures Covers(m'.dag, d.tips, d.own)
    {
      CoverLasts(m.dag, m'.dag, d.tips, d.own);
    }
  }

  // -------------------------------------------------------------------------------------------
  // Every step keeps the invariant

  /** Tips cover all the vertices of any author. */
  lemma TipsCover(s: State, tips: seq<ID>, m: NodeID)
    requires Valid(s) && forall x :: x in tips <==> x in s.tips
    ensures Covers(s, tips, Own(s, m))
  {
    hide WellFormed, Inverse, Causal, HeightRight, TrackingRight, AllDelivered, OnePerRound, MaxRound;
    assert AllIn(s.vertices, tips);
    MaxRoundBounds(s.vertices, tips);
    forall x | x in s.vertices && x != GENESIS
      ensures tips != [] && s.vertices[x].round <= MaxRound(s.vertices, tips)
    {
      var c := BelowSomeTip(s, x);
      assert c[0] in tips;
    }
  }

  /** Steps that touch one miner and neither its DAG nor the network. */
  lemma LocalInv(net: Net, m: NodeID, miner: Miner)
    requires Inv(net) && m in net.miners && miner.dag == net.miners[m].dag && DraftsCover(miner)
    ensures Inv(net.(miners := net.miners[m := miner]))
  {
    hide Valid, FlagsRight, FromNetwork, ReplicaRight, DraftsCover;
    var net' := net.(miners := net.miners[m := miner]);
    forall r | r in net'.miners
      ensures ReplicaRight(net', r)
    {
      RightDrafts(net, r);
      ReplicaLasts(net, net', r);
    }
  }

  lemma RightDrafts(net: Net, r: NodeID)
    requires r in net.miners && ReplicaRight(net, r)
    ensures DraftsCover(net.miners[r]) && Valid(net.miners[r].dag)
  {
    hide Valid, FlagsRight, FromNetwork, DraftsCover;
  }

  lemma TakeTipsInv(net: Net, m: NodeID, tips: seq<ID>)
    requires Inv(net) && Enabled(net, TakeTips(m, tips))
    ensures Inv(Next(net, TakeTips(m, tips)))
  {
    hide ReplicaRight, Covers, Valid;
    RightDrafts(net, m);
    TipsCover(net.miners[m].dag, tips, m);
    LocalInv(net, m, Taken(net.miners[m], tips, m));
  }

  /** Every step but taking tips, adding a header and injecting one. */
  predicate Local(act: Action) {
    !(act.TakeTips? || act.Propose? || act.Receive? || act.Inject?)
  }

  lemma LocalStepInv(net: Net, act: Action)
    requires Inv(net) && Enabled(net, act) && Local(act)
    ensures Inv(Next(net, act))
  {
    hide ReplicaRight, Covers, Valid, LastRound, Inv;
    var m := act.miner;
    assert ReplicaRight(net, m) by { ReplicaOf(net, m); }
    RightDrafts(net, m);
    var miner := Next(net, act).miners[m];
    forall d | d in miner.drafts && Open(d)
      ensures Covers(miner.dag, d.tips, d.own)
    {
      LocalDraft(net, act, d);
    }
    LocalInv(net, m, miner);
  }

  /** An open draft was open before, on the same tips. */
  lemma LocalDraft(net: Net, act: Action, d: Draft)
    requires Enabled(net, act) && Local(act) && d in Next(net, act).miners[act.miner].drafts && Open(d)
    ensures exists e :: e in net.miners[act.miner].drafts && Open(e) && e.tips == d.tips && e.own == d.own
    ensures Next(net, act).miners[act.miner].dag == net.miners[act.miner].dag
  {
    hide LastRound;
    var drafts := net.miners[act.miner].drafts;
    if act.ReadRound? {
      assert drafts[act.k] in drafts;
    }
    assert act.ReadRound? || d in drafts;
  }

  lemma ReplicaOf(net: Net, m: NodeID)
    requires Inv(net) && m in net.miners
    ensures ReplicaRight(net, m)
  {
    hide ReplicaRight;
  }

  lemma InjectInv(net: Net, h: Header, a: NodeID)
    requires Inv(net) && Enabled(net, Inject(h, a))
    ensures Inv(Next(net, Inject(h, a)))
  {
    hide Valid, FlagsRight, FromNetwork, ReplicaRight, DraftsCover;
    var net' := Next(net, Inject(h, a));
    forall r | r in net'.miners
      ensures ReplicaRight(net', r)
    {
      RightDrafts(net, r);
      ReplicaLasts(net, net', r);
    }
  }

  lemma ProposeInv(net: Net, m: NodeID, k: nat, id: ID)
    requires Inv(net) && Enabled(net, Propose(m, k, id))
    ensures Inv(Next(net, Propose(m, k, id)))
  {
    hide Valid, FlagsRight, FromNetwork, ReplicaRight, Insert, Equivocates, DraftsCover, SentRight;
    var net' := Next(net, Propose(m, k, id));
    var s, h := net.miners[m].dag, HeaderOf(net.miners[m].drafts[k], id);
    RightDrafts(net, m);
    DraftKnown(net.miners[m], k);
    ProposeSent(net, m, k, id);
    forall r | r in net'.miners
      ensures ReplicaRight(net', r)
    {
      if r == m {
        ReplicaAdds(net, net', m, h, m);
      } else {
        RightDrafts(net, r);
        ReplicaLasts(net, net', r);
      }
    }
  }

  lemma DraftKnown(m: Miner, k: nat)
    requires DraftsCover(m) && k < |m.drafts| && Open(m.drafts[k])
    ensures Covers(m.dag, m.drafts[k].tips, m.drafts[k].own) && AllIn(m.dag.vertices, m.drafts[k].tips)
  {
    hide MaxRound;
    assert m.drafts[k] in m.drafts;
  }

  lemma ProposeSent(net: Net, m: NodeID, k: nat, id: ID)
    requires Inv(net) && Enabled(net, Propose(m, k, id))
    ensures NetGrows(net, Next(net, Propose(m, k, id))) && SentRight(Next(net, Propose(m, k, id)))
  {
    hide Valid, AddHeader, DraftsCover, ReplicaRight;
    RightDrafts(net, m);
    var s, h := net.miners[m].dag, HeaderOf(net.miners[m].drafts[k], id);
    AddHeaderValid(s, h, m);
    AcceptedHolds(s, h, m);
  }

  lemma AcceptedHolds(s: State, h: Header, a: NodeID)
    ensures AddHeader(s, h, a).1.Accepted? ==> h.id in AddHeader(s, h, a).0.vertices
  {
    hide Equivocates, RoundOf;
  }

  lemma ReceiveInv(net: Net, m: NodeID, k: nat)
    requires Inv(net) && Enabled(net, Receive(m, k))
    ensures Inv(Next(net, Receive(m, k)))
  {
    hide Valid, FlagsRight, FromNetwork, ReplicaRight, Insert, Equivocates, DraftsCover, SentRight;
    var net' := Next(net, Receive(m, k));
    var s, id := net.miners[m].dag, net.miners[m].admitted[k];
    var msg := net.sent[id];
    assert ReplicaRight(net, m);
    SentUnderItsID(net, id);
    ReceiveSent(net, m, k);
    forall r | r in net'.miners
      ensures ReplicaRight(net', r)
    {
      if r == m {
        if msg.author in net.miners && AllIn(s.vertices, msg.header.predecessors) {
          NoFalseAlarm(net, m, id);
        }
        ReplicaAdds(net, net', m, msg.header, msg.author);
      } else {
        RightDrafts(net, r);
        ReplicaLasts(net, net', r);
      }
    }
  }

  lemma ReceiveSent(net: Net, m: NodeID, k: nat)
    requires Inv(net) && Enabled(net, Receive(m, k))
    ensures NetGrows(net, Next(net, Receive(m, k))) && SentRight(Next(net, Receive(m, k)))
  {
    hide AddHeader, Valid, DraftsCover, ReplicaRight, SentRight;
    RightDrafts(net, m);
    var msg := net.sent[net.miners[m].admitted[k]];
    AddHeaderValid(net.miners[m].dag, msg.header, msg.author);
    SentLasts(net, m, Received(net.miners[m], k, msg).0);
  }

  lemma SentLasts(net: Net, m: NodeID, miner: Miner)
    requires SentRight(net) && m in net.miners && Extends(net.miners[m].dag.vertices, miner.dag.vertices)
    ensures SentRight(net.(miners := net.miners[m := miner]))
  {
  }

  lemma SentUnderItsID(net: Net, id: ID)
    requires SentRight(net) && id in net.sent
    ensures net.sent[id].header.id == id
  {
  }

  lemma StepInv(net: Net, act: Action)
    requires Inv(net) && Enabled(net, act)
    ensures Inv(Next(net, act))
  {
    hide Inv, Next;
    match act
    case TakeTips(m, tips) => TakeTipsInv(net, m, tips);
    case Propose(m, k, id) => ProposeInv(net, m, k, id);
    case Receive(m, k) => ReceiveInv(net, m, k);
    case Inject(h, a) => InjectInv(net, h, a);
    case _ => LocalStepInv(net, act);
  }

  // -------------------------------------------------------------------------------------------
  // Whole runs

  /** `acts` is a run from `start` that ends in `net`. */
  ghost predicate Reaches(start: Net, acts: seq<Action>, net: Net) {
    if acts == [] then net == start else
    var n := |acts| - 1;
    exists mid :: Reaches(start, acts[..n], mid) && Enabled(mid, acts[n]) && net == Next(mid, acts[n])
  }

  lemma {:induction false} RunInv(start: Net, acts: seq<Action>, net: Net)
    requires Init(start) && Reaches(start, acts, net)
    ensures Inv(net) && net.miners.Keys == start.miners.Keys
    decreases |acts|
  {
    hide Inv, Next, Enabled;
    if acts == [] {
      InitInv(start);
    } else {
      var n := |acts| - 1;
      var mid :| Reaches(start, acts[..n], mid) && Enabled(mid, acts[n]) && net == Next(mid, acts[n]);
      RunInv(start, acts[..n], mid);
      StepInv(mid, acts[n]);
      StepMiners(mid, acts[n]);
    }
  }

  lemma StepMiners(net: Net, act: Action)
    requires Enabled(net, act)
    ensures Next(net, act).miners.Keys == net.miners.Keys
  {
  }

  /** In every run, however its headers are lost, repeated or reordered, no miner is flagged by
      another replica; whoever is flagged, by itself or another, made two different headers of one
      round. */
  lemma OthersNeverFlag(start: Net, acts: seq<Action>, net: Net, r: NodeID, a: NodeID)
    requires Init(start) && Reaches(start, acts, net)
    requires r in net.miners && a in net.miners[r].dag.byzantine
    ensures a == r || a !in net.miners
    ensures exists x, y :: Conflict(net, net.miners[r].dag.vertices, a, x, y)
  {
    hide Reaches, Conflict, Valid;
    RunInv(start, acts, net);
    assert ReplicaRight(net, r);
  }

  /** In every run, replicas agree on the round of every header they share, and replicas holding the
      same headers agree on tips and height. */
  lemma ReplicasAgree(start: Net, acts: seq<Action>, net: Net, r: NodeID, q: NodeID)
    requires Init(start) && Reaches(start, acts, net) && r in net.miners && q in net.miners
    ensures var s, t := net.miners[r].dag, net.miners[q].dag;
      && (forall x :: x in s.vertices && x in t.vertices ==> s.vertices[x].round == t.vertices[x].round)
      && (s.vertices.Keys == t.vertices.Keys ==> s.tips == t.tips && s.height == t.height)
  {
    hide Reaches, WellFormed, Inverse, Causal, TipsRight, HeightRight, TrackingRight, AllDelivered, OnePerRound;
    RunInv(start, acts, net);
    assert ReplicaRight(net, r) && ReplicaRight(net, q);
    var s, t := net.miners[r].dag, net.miners[q].dag;
    NetworkCompatible(net, s.vertices, t.vertices);
    forall x | x in s.vertices && x in t.vertices
      ensures s.vertices[x].round == t.vertices[x].round
    {
      RoundsAgree(s.vertices, t.vertices, x);
    }
    if s.vertices.Keys == t.vertices.Keys {
      SameHeadersSameView(s, t);
    }
  }

  // -------------------------------------------------------------------------------------------
  // When a miner flags itself

  /** Since the tips of the draft were read, the miner added a header of the round that the draft
      will have. */
  ghost predicate Collides(s: State, d: Draft, m: NodeID)
    requires Open(d) && AllIn(s.vertices, d.tips)
  {
    exists x :: x in Own(s, m) && x !in d.own && s.vertices[x].round == RoundOf(s.vertices, d.tips)
  }

  /** The round of a proposal exceeds the rounds of all headers that its author had when the tips were
      read. */
  lemma ProposalRoundExceeds(s: State, ps: seq<ID>, own: set<ID>)
    requires Covers(s, ps, own)
    ensures forall x :: x in own ==> s.vertices[x].round < RoundOf(s.vertices, ps)
  {
    hide MaxRound;
  }

  /** A proposal is refused exactly if it collides, and then its author is flagged. */
  lemma ProposalOutcome(s: State, d: Draft, id: ID, m: NodeID)
    requires Valid(s) && d.Built? && Covers(s, d.tips, d.own) && id !in s.vertices
    ensures AddHeader(s, HeaderOf(d, id), m).1 == if Collides(s, d, m) then Equivocation else Accepted
    ensures AddHeader(s, HeaderOf(d, id), m).0.byzantine == s.byzantine + if Collides(s, d, m) then {m} else {}
    ensures !Collides(s, d, m) ==> Own(AddHeader(s, HeaderOf(d, id), m).0, m) == Own(s, m) + {id}
  {
    hide RoundOf, Insert, WellFormed, Inverse, Causal, HeightRight, AllDelivered, OnePerRound, TipsRight;
    ProposalRoundExceeds(s, d.tips, d.own);
    assert Equivocates(s, HeaderOf(d, id), m) <==> Collides(s, d, m);
    if !Collides(s, d, m) {
      HasGenesis(s.vertices);
      InsertKeepsFlags(s, HeaderOf(d, id), m);
      InsertOwn(s, HeaderOf(d, id), m);
    }
  }

  lemma InsertKeepsFlags(s: State, h: Header, a: NodeID)
    requires AllIn(s.vertices, h.predecessors)
    ensures Insert(s, h, a).byzantine == s.byzantine
  {
    hide RoundOf;
  }

  lemma InsertOwn(s: State, h: Header, a: NodeID)
    requires AllIn(s.vertices, h.predecessors) && h.id !in s.vertices && GENESIS in s.vertices
    ensures Own(Insert(s, h, a), a) == Own(s, a) + {h.id}
    ensures forall m :: m != a ==> Own(Insert(s, h, a), m) == Own(s, m)
  {
    hide RoundOf, Insert;
    InsertExtends(s, h, a);
  }

  /** Two proposals of one miner that were both begun on the headers it has now: the first is accepted,
      and the second is refused, and the miner flags itself, exactly if their rounds are the same. */
  lemma OverlapExactly(s: State, m: NodeID, d: Draft, d': Draft, id: ID, id': ID)
    requires Valid(s) && d.Built? && d'.Built? && d.own == d'.own == Own(s, m)
    requires Covers(s, d.tips, d.own) && Covers(s, d'.tips, d'.own)
    requires id !in s.vertices && id' !in s.vertices && id != id'
    ensures var (t, first) := AddHeader(s, HeaderOf(d, id), m);
      var (u, second) := AddHeader(t, HeaderOf(d', id'), m);
      var same := RoundOf(s.vertices, d.tips) == RoundOf(s.vertices, d'.tips);
      && first.Accepted? && second == (if same then Equivocation else Accepted)
      && u.byzantine == s.byzantine + if same then {m} else {}
  {
    hide RoundOf, Insert, Valid, Covers, Equivocates, AddHeader;
    var t := AddHeader(s, HeaderOf(d, id), m).0;
    ProposalOutcome(s, d, id, m);
    AcceptedRound(s, HeaderOf(d, id), m);
    CoverLasts(s, t, d'.tips, d'.own);
    ProposalOutcome(t, d', id', m);
    assert AllIn(s.vertices, d'.tips) by { assert Covers(s, d'.tips, d'.own); CoversKnown(s, d'.tips, d'.own); }
    RoundOfSame(s.vertices, t.vertices, d'.tips);
  }

  lemma CoversKnown(s: State, ps: seq<ID>, own: set<ID>)
    requires Covers(s, ps, own)
    ensures AllIn(s.vertices, ps)
  {
    hide MaxRound;
  }

  lemma AcceptedRound(s: State, h: Header, a: NodeID)
    requires Valid(s) && h.id !in s.vertices && AddHeader(s, h, a).1.Accepted?
    ensures var t := AddHeader(s, h, a).0;
      && Valid(t) && Extends(s.vertices, t.vertices) && t.vertices.Keys == s.vertices.Keys + {h.id}
      && AllIn(s.vertices, h.predecessors) && t.vertices[h.id].round == RoundOf(s.vertices, h.predecessors)
  {
    hide RoundOf, Insert, Valid, Equivocates;
    AddHeaderValid(s, h, a);
    InsertExtends(s, h, a);
  }

  /** The step is a proposal of the miner that collides. */
  ghost predicate CollidingStep(net: Net, act: Action, m: NodeID) {
    && Enabled(net, act) && act.Propose? && act.miner == m
    && var d := net.miners[m].drafts[act.k];
       AllIn(net.miners[m].dag.vertices, d.tips) && Collides(net.miners[m].dag, d, m)
  }

  /** A step flags the miner in its own DAG exactly if it is a proposal of its own that collides. */
  lemma SelfFlagStep(net: Net, act: Action, m: NodeID)
    requires Inv(net) && Enabled(net, act) && m in net.miners
    ensures m in Next(net, act).miners
    ensures m in Next(net, act).miners[m].dag.byzantine <==>
      m in net.miners[m].dag.byzantine || CollidingStep(net, act, m)
  {
    hide Inv, Proposed, Received, Taken, RoundRead, Loaded, Stored, SequenceRead, Compared, Written, Collides;
    if act.Propose? && act.miner == m {
      ProposeFlags(net, m, act.k, act.id);
    } else if act.Receive? && act.miner == m {
      ReceiveNoSelfFlag(net, m, act.k);
    } else {
      LocalKeepsDag(net, act, m);
    }
  }

  lemma LocalKeepsDag(net: Net, act: Action, m: NodeID)
    requires Enabled(net, act) && m in net.miners && (act.Inject? || act.miner != m || !(act.Propose? || act.Receive?))
    ensures m in Next(net, act).miners && Next(net, act).miners[m].dag == net.miners[m].dag
  {
    hide Proposed, Received, Own, LastRound;
  }

  lemma ProposeFlags(net: Net, m: NodeID, k: nat, id: ID)
    requires Inv(net) && Enabled(net, Propose(m, k, id))
    ensures m in Proposed(net.miners[m], k, id, m).0.dag.byzantine <==>
      m in net.miners[m].dag.byzantine || CollidingStep(net, Propose(m, k, id), m)
  {
    hide Inv, ReplicaRight, Collides, AddHeader, Valid, DraftsCover, Covers;
    ReplicaOf(net, m);
    RightDrafts(net, m);
    DraftKnown(net.miners[m], k);
    FreshInDag(net, m, id);
    ProposalOutcome(net.miners[m].dag, net.miners[m].drafts[k], id, m);
  }

  lemma FreshInDag(net: Net, m: NodeID, id: ID)
    requires m in net.miners && ReplicaRight(net, m) && Fresh(net, id)
    ensures id !in net.miners[m].dag.vertices
  {
    hide Valid, FlagsRight, DraftsCover;
  }

  /** A header of somebody else, or one that is known already, neither flags the miner nor adds to its
      own headers. */
  lemma AddOther(s: State, h: Header, a: NodeID, m: NodeID)
    requires Valid(s) && (a != m || h.id in s.vertices)
    ensures m in AddHeader(s, h, a).0.byzantine <==> m in s.byzantine
    ensures Own(AddHeader(s, h, a).0, m) == Own(s, m)
  {
    hide Valid, Equivocates, Insert, Own;
    if h.id !in s.vertices && AllIn(s.vertices, h.predecessors) {
      ValidGenesis(s);
      InsertKeepsFlags(s, h, a);
      InsertOwn(s, h, a);
      FlagKeepsOwn(s, a, m);
    }
  }

  lemma ValidGenesis(s: State)
    requires Valid(s)
    ensures GENESIS in s.vertices
  {
    hide WellFormed, Inverse, Causal, HeightRight, AllDelivered, OnePerRound, TipsRight, TrackingRight;
    HasGenesis(s.vertices);
  }

  lemma FlagKeepsOwn(s: State, a: NodeID, m: NodeID)
    ensures Own(s.(byzantine := s.byzantine + {a}), m) == Own(s, m)
  {
  }

  /** A miner knows the headers that were sent under its name. */
  lemma OwnKnown(net: Net, m: NodeID, id: ID)
    requires Inv(net) && m in net.miners && id in net.sent && net.sent[id].author == m
    ensures net.sent[id].header.id in net.miners[m].dag.vertices
  {
    hide ReplicaRight;
  }

  /** Receiving it leaves flag, own headers and drafts of the miner as they are. */
  lemma ReceivedOther(miner: Miner, k: nat, msg: Message, m: NodeID)
    requires Valid(miner.dag) && (msg.author != m || msg.header.id in miner.dag.vertices) && k < |miner.admitted|
    ensures m in Received(miner, k, msg).0.dag.byzantine <==> m in miner.dag.byzantine
    ensures Own(Received(miner, k, msg).0.dag, m) == Own(miner.dag, m)
    ensures Received(miner, k, msg).0.drafts == miner.drafts
  {
    hide Valid, AddHeader, Own;
    AddOther(miner.dag, msg.header, msg.author, m);
  }

  lemma ReceiveNoSelfFlag(net: Net, m: NodeID, k: nat)
    requires Inv(net) && m in net.miners && k < |net.miners[m].admitted| && net.miners[m].admitted[k] in net.sent
    ensures var miner := Received(net.miners[m], k, net.sent[net.miners[m].admitted[k]]).0;
      && (m in miner.dag.byzantine <==> m in net.miners[m].dag.byzantine)
      && Own(miner.dag, m) == Own(net.miners[m].dag, m) && miner.drafts == net.miners[m].drafts
  {
    hide Inv, ReplicaRight, Received, Own, Valid, DraftsCover;
    ReplicaOf(net, m);
    RightDrafts(net, m);
    var id := net.miners[m].admitted[k];
    if net.sent[id].author == m {
      OwnKnown(net, m, id);
    }
    ReceivedOther(net.miners[m], k, net.sent[id], m);
  }

  type StepKind = (Net, Action) -> bool

  /** Some step of the run is of this kind. */
  ghost predicate HappensIn(start: Net, acts: seq<Action>, kind: StepKind) {
    exists i, mid :: 0 <= i < |acts| && Reaches(start, acts[..i], mid) && kind(mid, acts[i])
  }

  lemma {:induction false} ReachesOne(start: Net, acts: seq<Action>, net: Net, net': Net)
    requires Reaches(start, acts, net) && Reaches(start, acts, net')
    ensures net == net'
    decreases |acts|
  {
    hide Enabled, Next;
    if acts != [] {
      var n := |acts| - 1;
      var mid :| Reaches(start, acts[..n], mid) && Enabled(mid, acts[n]) && net == Next(mid, acts[n]);
      var mid' :| Reaches(start, acts[..n], mid') && Enabled(mid', acts[n]) && net' == Next(mid', acts[n]);
      ReachesOne(start, acts[..n], mid, mid');
    }
  }

  lemma HappensNowhere(start: Net, kind: StepKind)
    ensures !HappensIn(start, [], kind)
  {
  }

  lemma HappensSplit(start: Net, acts: seq<Action>, mid: Net, kind: StepKind)
    requires acts != [] && Reaches(start, acts[..|acts| - 1], mid)
    ensures HappensIn(start, acts, kind) <==>
      HappensIn(start, acts[..|acts| - 1], kind) || kind(mid, acts[|acts| - 1])
  {
    hide Reaches;
    var n := |acts| - 1;
    if HappensIn(start, acts, kind) {
      var i, net :| 0 <= i < |acts| && Reaches(start, acts[..i], net) && kind(net, acts[i]);
      if i == n {
        ReachesOne(start, acts[..n], mid, net);
      } else {
        assert acts[..n][..i] == acts[..i] && acts[..n][i] == acts[i];
      }
    }
    if HappensIn(start, acts[..n], kind) {
      var i, net :| 0 <= i < n && Reaches(start, acts[..n][..i], net) && kind(net, acts[..n][i]);
      assert acts[..n][..i] == acts[..i] && acts[..n][i] == acts[i];
    }
  }

  ghost function Colliding(m: NodeID): StepKind {
    (net, act) => CollidingStep(net, act, m)
  }

  /** In every run, a miner is flagged by itself if and only if one of its proposals had the round of a
      header that it added itself after it had read the tips for that proposal. */
  lemma {:induction false} SelfFlagExactly(start: Net, acts: seq<Action>, net: Net, m: NodeID)
    requires Init(start) && Reaches(start, acts, net) && m in start.miners
    ensures m in net.miners
    ensures m in net.miners[m].dag.byzantine <==> HappensIn(start, acts, Colliding(m))
    decreases |acts|
  {
    hide Inv, Next, Enabled, HappensIn, CollidingStep;
    RunInv(start, acts, net);
    if acts == [] {
      HappensNowhere(start, Colliding(m));
    } else {
      var n := |acts| - 1;
      var mid :| Reaches(start, acts[..n], mid) && Enabled(mid, acts[n]) && net == Next(mid, acts[n]);
      RunInv(start, acts[..n], mid);
      SelfFlagExactly(start, acts[..n], mid, m);
      SelfFlagStep(mid, acts[n], m);
      HappensSplit(start, acts, mid, Colliding(m));
    }
  }

  // -------------------------------------------------------------------------------------------
  // Miners whose proposals do not overlap

  ghost predicate Sequential(net: Net) {
    forall m :: m in net.miners ==> |net.miners[m].drafts| <= 1
  }

  /** A run in which no miner ever has two proposals under way. */
  ghost predicate ReachesSequentially(start: Net, acts: seq<Action>, net: Net) {
    Sequential(net) &&
    if acts == [] then net == start else
    var n := |acts| - 1;
    exists mid :: ReachesSequentially(start, acts[..n], mid) && Enabled(mid, acts[n]) && net == Next(mid, acts[n])
  }

  lemma {:induction false} SequentialReaches(start: Net, acts: seq<Action>, net: Net)
    requires ReachesSequentially(start, acts, net)
    ensures Reaches(start, acts, net)
    decreases |acts|
  {
    hide Enabled, Next, Sequential;
    if acts != [] {
      var n := |acts| - 1;
      var mid :| ReachesSequentially(start, acts[..n], mid) && Enabled(mid, acts[n]) && net == Next(mid, acts[n]);
      SequentialReaches(start, acts[..n], mid);
    }
  }

  /** The miner added nothing since the tips of its drafts were read, and never flagged itself. */
  ghost predicate Safe(m: Miner, self: NodeID) {
    && self !in m.dag.byzantine
    && forall d :: d in m.drafts && Open(d) ==> Own(m.dag, self) <= d.own
  }

  lemma CoveredNoCollision(s: State, d: Draft, m: NodeID)
    requires Open(d) && AllIn(s.vertices, d.tips) && Own(s, m) <= d.own
    ensures !Collides(s, d, m)
  {
    hide Own, RoundOf;
  }

  lemma SafeProposed(miner: Miner, k: nat, id: ID, m: NodeID)
    requires Valid(miner.dag) && DraftsCover(miner) && Safe(miner, m) && |miner.drafts| <= 1
    requires k < |miner.drafts| && miner.drafts[k].Built? && id !in miner.dag.vertices
    ensures Proposed(miner, k, id, m).1.Accepted?
    ensures Safe(Proposed(miner, k, id, m).0, m)
  {
    hide Valid, DraftsCover, AddHeader, Own, Covers, Collides;
    var s, d := miner.dag, miner.drafts[k];
    assert d in miner.drafts;
    DraftKnown(miner, k);
    CoveredNoCollision(s, d, m);
    ProposalOutcome(s, d, id, m);
  }

  lemma SafePropose(net: Net, m: NodeID, k: nat, id: ID)
    requires Inv(net) && Enabled(net, Propose(m, k, id)) && Safe(net.miners[m], m) && |net.miners[m].drafts| <= 1
    ensures Proposed(net.miners[m], k, id, m).1.Accepted?
    ensures Safe(Proposed(net.miners[m], k, id, m).0, m)
  {
    hide Inv, ReplicaRight, Proposed, Safe, DraftsCover, Valid;
    ReplicaOf(net, m);
    RightDrafts(net, m);
    FreshInDag(net, m, id);
    SafeProposed(net.miners[m], k, id, m);
  }

  lemma SafeReceive(net: Net, m: NodeID, k: nat)
    requires Inv(net) && m in net.miners && k < |net.miners[m].admitted| && net.miners[m].admitted[k] in net.sent
    requires Safe(net.miners[m], m)
    ensures Safe(Received(net.miners[m], k, net.sent[net.miners[m].admitted[k]]).0, m)
  {
    hide Inv, Received, Own;
    ReceiveNoSelfFlag(net, m, k);
  }

  lemma SafeStep(net: Net, act: Action, m: NodeID)
    requires Inv(net) && Enabled(net, act) && Sequential(net) && m in net.miners && Safe(net.miners[m], m)
    ensures m in Next(net, act).miners && Safe(Next(net, act).miners[m], m)
  {
    hide Inv, Received, Proposed, Own, LastRound;
    if act.Propose? && act.miner == m {
      SafePropose(net, m, act.k, act.id);
    } else if act.Receive? && act.miner == m {
      SafeReceive(net, m, act.k);
    } else if Local(act) && act.miner == m {
      forall d | d in Next(net, act).miners[m].drafts && Open(d)
        ensures Own(net.miners[m].dag, m) <= d.own
      {
        LocalDraft(net, act, d);
      }
    }
  }

  /** In every run in which no miner overlaps its own proposals, no miner is flagged by any replica,
      its own included, whatever arrives between reading the tips and adding the header. */
  lemma {:induction false} HonestNeverFlagged(start: Net, acts: seq<Action>, net: Net)
    requires Init(start) && ReachesSequentially(start, acts, net)
    ensures Inv(net)
    ensures forall m :: m in net.miners ==> Safe(net.miners[m], m)
    ensures forall r, m :: r in net.miners && m in net.miners ==> m !in net.miners[r].dag.byzantine
    decreases |acts|
  {
    hide Valid, FromNetwork, DraftsCover, Enabled, Next, SentRight, Conflict, Own;
    if acts == [] {
      InitInv(start);
    } else {
      var n := |acts| - 1;
      var mid :| ReachesSequentially(start, acts[..n], mid) && Enabled(mid, acts[n]) && net == Next(mid, acts[n]);
      HonestNeverFlagged(start, acts[..n], mid);
      StepInv(mid, acts[n]);
      StepMiners(mid, acts[n]);
      forall m | m in net.miners
        ensures Safe(net.miners[m], m)
      {
        SafeStep(mid, acts[n], m);
      }
    }
    forall r, m | r in net.miners && m in net.miners
      ensures m !in net.miners[r].dag.byzantine
    {
      assert ReplicaRight(net, r) && Safe(net.miners[r], r);
    }
  }

  /** In such a run every proposal is accepted, and its round exceeds those of all earlier headers of its
      author. */
  lemma ProposalsRise(start: Net, acts: seq<Action>, net: Net, m: NodeID, k: nat, id: ID)
    requires Init(start) && ReachesSequentially(start, acts, net) && Enabled(net, Propose(m, k, id))
    ensures Proposed(net.miners[m], k, id, m).1.Accepted?
    ensures var s, tips := net.miners[m].dag, net.miners[m].drafts[k].tips;
      AllIn(s.vertices, tips) && forall x :: x in Own(s, m) ==> s.vertices[x].round < RoundOf(s.vertices, tips)
  {
    hide Inv, Own, Covers, Proposed, RoundOf, Valid;
    HonestNeverFlagged(start, acts, net);
    SafePropose(net, m, k, id);
    ReplicaOf(net, m);
    RightDrafts(net, m);
    DraftKnown(net.miners[m], k);
    assert net.miners[m].drafts[k] in net.miners[m].drafts;
    ProposalRoundExceeds(net.miners[m].dag, net.miners[m].drafts[k].tips, net.miners[m].drafts[k].own);
  }
}
