/** The blocklace DAG as a value: what one replica holds, what adding a header makes of it, and what
    every reachable DAG satisfies. Vertices are named by the IDs of their headers. */
module Blocklace {
  import opened Numbers

  datatype ID = ID(value: nat)
  datatype NodeID = NodeID(value: nat)

  const GENESIS := ID(0)
  const NOBODY := NodeID(0)

  datatype Header = Header(id: ID, predecessors: seq<ID>, height: nat)

  datatype Vertex = Vertex(
    header: Header,
    author: NodeID,
    round: nat,
    successors: seq<ID>,
    delivered: bool)

  type Graph = map<ID, Vertex>

  datatype State = State(
    vertices: Graph,
    tips: set<ID>,
    equivocations: map<NodeID, seq<ID>>,
    byzantine: set<NodeID>,
    sequence: seq<ID>,
    delivered: set<ID>,
    height: nat,
    width: nat)

  datatype Outcome = Accepted | InvalidPredecessor | Equivocation | Byzantine

  predicate AllIn(g: Graph, ps: seq<ID>) {
    forall i :: 0 <= i < |ps| ==> ps[i] in g
  }

  function MaxRound(g: Graph, ps: seq<ID>): nat
    requires AllIn(g, ps)
  {
    if ps == [] then 0 else Max(MaxRound(g, ps[..|ps| - 1]), g[ps[|ps| - 1]].round)
  }

  /** Round of a vertex with these predecessors. */
  function RoundOf(g: Graph, ps: seq<ID>): nat
    requires AllIn(g, ps)
  {
    if ps == [] then 0 else MaxRound(g, ps) + 1
  }

  function Tracked(s: State, author: NodeID): seq<ID> {
    if author in s.equivocations then s.equivocations[author] else []
  }

  /** The author already has a vertex at the round of this header. */
  predicate Equivocates(s: State, h: Header, author: NodeID)
    requires AllIn(s.vertices, h.predecessors)
  {
    exists x :: x in Tracked(s, author) && x in s.vertices && x != h.id
                && s.vertices[x].round == RoundOf(s.vertices, h.predecessors)
  }

  function Copies(n: nat, id: ID): seq<ID> {
    seq(n, _ => id)
  }

  /** Every predecessor gains the new vertex as successor, once for each time it is named. */
  ghost function Linked(g: Graph, ps: seq<ID>, id: ID): Graph {
    map x | x in g :: g[x].(successors := g[x].successors + Copies(multiset(ps)[x], id))
  }

  /** The graph with one more vertex, delivered and without successors. */
  ghost function Grown(g: Graph, h: Header, author: NodeID): Graph
    requires AllIn(g, h.predecessors)
  {
    Linked(g, h.predecessors, h.id)[h.id := Vertex(h, author, RoundOf(g, h.predecessors), [], true)]
  }

  ghost function Insert(s: State, h: Header, author: NodeID): State
    requires AllIn(s.vertices, h.predecessors)
  {
    var tips := s.tips + {h.id} - (set p | p in h.predecessors);
    State(
      Grown(s.vertices, h, author),
      tips,
      s.equivocations[author := Tracked(s, author) + [h.id]],
      s.byzantine,
      s.sequence + [h.id],
      s.delivered + {h.id},
      Max(s.height, RoundOf(s.vertices, h.predecessors)),
      |tips|)
  }

  ghost function AddHeader(s: State, h: Header, author: NodeID): (State, Outcome) {
    if h.id in s.vertices then (s, Accepted)
    else if !AllIn(s.vertices, h.predecessors) then (s, InvalidPredecessor)
    else if Equivocates(s, h, author) then (s.(byzantine := s.byzantine + {author}), Equivocation)
    else (Insert(s, h, author), Accepted)
  }

  /** Round of the vertex delivered last. */
  function LastRound(s: State): nat {
    if s.sequence != [] && s.sequence[|s.sequence| - 1] in s.vertices
    then s.vertices[s.sequence[|s.sequence| - 1]].round else 0
  }

  const GENESIS_VERTEX := Vertex(Header(GENESIS, [], 0), NOBODY, 0, [], true)

  /** A new DAG holds the genesis vertex, which is in the sequence but not among the tips. */
  const START := State(map[GENESIS := GENESIS_VERTEX], {}, map[], {}, [GENESIS], {}, 0, 0)

  // -------------------------------------------------------------------------------------------
  // Invariants

  ghost predicate WellFormed(g: Graph) {
    && GENESIS in g && g[GENESIS].header == Header(GENESIS, [], 0) && g[GENESIS].author == NOBODY
    && forall x :: x in g ==>
         && g[x].header.id == x
         && AllIn(g, g[x].header.predecessors)
         && g[x].round == RoundOf(g, g[x].header.predecessors)
  }

  /** Successors invert predecessors, with multiplicity. */
  ghost predicate Inverse(g: Graph) {
    && (forall x, y :: x in g && y in g ==>
          multiset(g[x].successors)[y] == multiset(g[y].header.predecessors)[x])
    && (forall x, y :: x in g && y in g[x].successors ==> y in g)
  }

  /** Tips are exactly the non-genesis vertices without successors. */
  ghost predicate TipsRight(s: State) {
    && (forall x :: x in s.tips <==> x in s.vertices && x != GENESIS && s.vertices[x].successors == [])
    && s.width == |s.tips|
  }

  /** The predecessors of the vertex at position `i` come before it. */
  ghost predicate AfterPredecessors(g: Graph, seqn: seq<ID>, i: int)
    requires 0 <= i < |seqn|
  {
    seqn[i] in g && forall p :: p in g[seqn[i]].header.predecessors ==> p in seqn[..i]
  }

  /** The sequence lists each vertex once, predecessors first. */
  ghost predicate Causal(g: Graph, seqn: seq<ID>) {
    && (forall i, j :: 0 <= i < j < |seqn| ==> seqn[i] != seqn[j])
    && (forall i :: 0 <= i < |seqn| ==> AfterPredecessors(g, seqn, i))
  }

  ghost predicate AllDelivered(s: State) {
    && (forall x :: x in s.vertices ==> s.vertices[x].delivered && x in s.sequence)
    && (forall x :: x in s.sequence ==> x in s.vertices)
    && s.delivered == s.vertices.Keys - {GENESIS}
  }

  ghost predicate HeightRight(s: State) {
    && (forall x :: x in s.vertices ==> s.vertices[x].round <= s.height)
    && (exists x :: x in s.vertices && s.vertices[x].round == s.height)
  }

  /** The tracked vertices of an author are all its non-genesis vertices. */
  ghost predicate TrackingRight(s: State) {
    forall a, x :: x in Tracked(s, a) <==> x in s.vertices && x != GENESIS && s.vertices[x].author == a
  }

  predicate Rivals(g: Graph, x: ID, y: ID) {
    && x in g && y in g && x != GENESIS && y != GENESIS
    && g[x].author == g[y].author && g[x].round == g[y].round
  }

  /** No author has two non-genesis vertices at one round. */
  ghost predicate OnePerRound(g: Graph) {
    forall x, y :: Rivals(g, x, y) ==> x == y
  }

  ghost predicate Valid(s: State) {
    && WellFormed(s.vertices)
    && Inverse(s.vertices)
    && TipsRight(s)
    && Causal(s.vertices, s.sequence)
    && AllDelivered(s)
    && HeightRight(s)
    && TrackingRight(s)
    && OnePerRound(s.vertices)
  }

  lemma StartValid()
    ensures Valid(START)
  {
    var s := START;
    assert WellFormed(s.vertices) && Inverse(s.vertices) by { StartGraph(); }
    hide WellFormed, Inverse;
    assert s.vertices[GENESIS].round == s.height;
  }

  lemma StartGraph()
    ensures WellFormed(START.vertices) && Inverse(START.vertices)
  {
  }

  // -------------------------------------------------------------------------------------------
  // Insertion keeps the invariants

  lemma {:induction false} MaxRoundSame(g: Graph, g': Graph, ps: seq<ID>)
    requires AllIn(g, ps) && AllIn(g', ps)
    requires forall p :: p in ps ==> g'[p].round == g[p].round
    ensures MaxRound(g', ps) == MaxRound(g, ps)
    decreases |ps|
  {
    if ps != [] {
      var n := |ps| - 1;
      assert ps[n] in ps;
      assert forall p :: p in ps[..n] ==> p in ps;
      MaxRoundSame(g, g', ps[..n]);
    }
  }

  lemma {:induction false} MaxRoundBounds(g: Graph, ps: seq<ID>)
    requires AllIn(g, ps)
    ensures forall p :: p in ps ==> g[p].round <= MaxRound(g, ps)
    ensures ps != [] ==> exists p :: p in ps && g[p].round == MaxRound(g, ps)
    decreases |ps|
  {
    if ps != [] {
      var n := |ps| - 1;
      assert ps == ps[..n] + [ps[n]];
      MaxRoundBounds(g, ps[..n]);
      assert ps[n] in ps;
    }
  }

  /** `g'` has the vertices of `g`, with the same headers, authors and rounds. */
  ghost predicate Extends(g: Graph, g': Graph) {
    forall x :: x in g ==>
      x in g' && g'[x].header == g[x].header && g'[x].author == g[x].author && g'[x].round == g[x].round
  }

  lemma LinkedExtends(g: Graph, ps: seq<ID>, id: ID)
    ensures Extends(g, Linked(g, ps, id)) && Linked(g, ps, id).Keys == g.Keys
    ensures forall x :: x in g ==> Linked(g, ps, id)[x].delivered == g[x].delivered
  {
    hide Copies;
  }

  lemma GrownExtends(g: Graph, h: Header, author: NodeID)
    requires AllIn(g, h.predecessors) && h.id !in g
    ensures Extends(g, Grown(g, h, author))
    ensures Grown(g, h, author).Keys == g.Keys + {h.id}
    ensures Grown(g, h, author)[h.id] == Vertex(h, author, RoundOf(g, h.predecessors), [], true)
    ensures forall x :: x in g ==> Grown(g, h, author)[x].delivered == g[x].delivered
  {
    hide RoundOf, Linked;
    LinkedExtends(g, h.predecessors, h.id);
  }

  lemma InsertExtends(s: State, h: Header, author: NodeID)
    requires AllIn(s.vertices, h.predecessors) && h.id !in s.vertices
    ensures Extends(s.vertices, Insert(s, h, author).vertices)
    ensures Insert(s, h, author).vertices.Keys == s.vertices.Keys + {h.id}
    ensures Insert(s, h, author).vertices[h.id] == Vertex(h, author, RoundOf(s.vertices, h.predecessors), [], true)
    ensures forall x :: x in s.vertices ==> Insert(s, h, author).vertices[x].delivered == s.vertices[x].delivered
  {
    hide RoundOf, Grown, Extends;
    GrownExtends(s.vertices, h, author);
  }

  lemma RoundOfSame(g: Graph, g': Graph, ps: seq<ID>)
    requires Extends(g, g') && AllIn(g, ps)
    ensures AllIn(g', ps) && RoundOf(g', ps) == RoundOf(g, ps)
  {
    hide MaxRound;
    assert forall p :: p in ps ==> g'[p].round == g[p].round;
    MaxRoundSame(g, g', ps);
  }

  lemma InsertWellFormed(s: State, h: Header, author: NodeID)
    requires WellFormed(s.vertices) && AllIn(s.vertices, h.predecessors) && h.id !in s.vertices
    ensures WellFormed(Insert(s, h, author).vertices)
  {
    hide RoundOf, Grown;
    var g, g' := s.vertices, Insert(s, h, author).vertices;
    InsertExtends(s, h, author);
    forall x | x in g'
      ensures g'[x].header.id == x && AllIn(g', g'[x].header.predecessors)
      ensures g'[x].round == RoundOf(g', g'[x].header.predecessors)
    {
      RoundOfSame(g, g', g'[x].header.predecessors);
    }
  }

  lemma {:induction false} CopiesCount(n: nat, id: ID, y: ID)
    ensures multiset(Copies(n, id))[y] == if y == id then n else 0
  {
    if n > 0 {
      CopiesCount(n - 1, id, y);
      assert Copies(n, id) == Copies(n - 1, id) + [id];
    }
  }

  lemma CountSuccessors(g: Graph, h: Header, x: ID, y: ID)
    requires x in g
    ensures multiset(Linked(g, h.predecessors, h.id)[x].successors)[y]
         == multiset(g[x].successors)[y] + if y == h.id then multiset(h.predecessors)[x] else 0
  {
    CopiesCount(multiset(h.predecessors)[x], h.id, y);
  }

  /** Old vertices change by their successors only. */
  lemma InsertSuccessors(s: State, h: Header, author: NodeID, x: ID)
    requires AllIn(s.vertices, h.predecessors) && h.id !in s.vertices && x in s.vertices
    ensures x in Insert(s, h, author).vertices
    ensures Insert(s, h, author).vertices[x].successors == Linked(s.vertices, h.predecessors, h.id)[x].successors
  {
    hide RoundOf, Linked;
    LinkedExtends(s.vertices, h.predecessors, h.id);
  }

  lemma InsertInversePair(s: State, h: Header, author: NodeID, x: ID, y: ID)
    requires WellFormed(s.vertices) && Inverse(s.vertices)
    requires AllIn(s.vertices, h.predecessors) && h.id !in s.vertices
    requires x in Insert(s, h, author).vertices && y in Insert(s, h, author).vertices
    ensures multiset(Insert(s, h, author).vertices[x].successors)[y]
         == multiset(Insert(s, h, author).vertices[y].header.predecessors)[x]
  {
    hide RoundOf, Insert, Linked, WellFormed;
    InsertExtends(s, h, author);
    if x == h.id {
      NotOwnPredecessor(s, h, author, y);
    } else {
      InsertSuccessors(s, h, author, x);
      CountSuccessors(s.vertices, h, x, y);
      if y == h.id {
        NotYetSuccessor(s.vertices, x, h.id);
      }
    }
  }

  lemma NotYetSuccessor(g: Graph, x: ID, y: ID)
    requires Inverse(g) && x in g && y !in g
    ensures multiset(g[x].successors)[y] == 0
  {
    assert y !in g[x].successors;
    assert y !in multiset(g[x].successors);
  }

  lemma LinkedSuccessor(g: Graph, ps: seq<ID>, id: ID, x: ID, y: ID)
    requires x in g && y in Linked(g, ps, id)[x].successors
    ensures y in g[x].successors || y == id
  {
  }

  lemma InsertSuccessorKnown(s: State, h: Header, author: NodeID, x: ID, y: ID)
    requires Inverse(s.vertices) && AllIn(s.vertices, h.predecessors) && h.id !in s.vertices
    requires x in Insert(s, h, author).vertices && y in Insert(s, h, author).vertices[x].successors
    ensures y in Insert(s, h, author).vertices
  {
    hide RoundOf, Insert, Linked;
    InsertExtends(s, h, author);
    if x != h.id {
      InsertSuccessors(s, h, author, x);
      LinkedSuccessor(s.vertices, h.predecessors, h.id, x, y);
    }
  }

  lemma InsertInverse(s: State, h: Header, author: NodeID)
    requires WellFormed(s.vertices) && Inverse(s.vertices)
    requires AllIn(s.vertices, h.predecessors) && h.id !in s.vertices
    ensures Inverse(Insert(s, h, author).vertices)
  {
    hide Insert, WellFormed;
    var g' := Insert(s, h, author).vertices;
    forall x, y | x in g' && y in g'
      ensures multiset(g'[x].successors)[y] == multiset(g'[y].header.predecessors)[x]
    {
      InsertInversePair(s, h, author, x, y);
    }
    forall x, y | x in g' && y in g'[x].successors
      ensures y in g'
    {
      InsertSuccessorKnown(s, h, author, x, y);
    }
  }

  lemma NotOwnPredecessor(s: State, h: Header, author: NodeID, y: ID)
    requires WellFormed(s.vertices) && AllIn(s.vertices, h.predecessors) && h.id !in s.vertices
    requires y in Insert(s, h, author).vertices
    ensures h.id !in Insert(s, h, author).vertices[y].header.predecessors
  {
    hide RoundOf;
    InsertExtends(s, h, author);
  }

  lemma InsertTips(s: State, h: Header, author: NodeID)
    requires TipsRight(s) && AllIn(s.vertices, h.predecessors) && h.id !in s.vertices && GENESIS in s.vertices
    ensures TipsRight(Insert(s, h, author))
  {
    hide RoundOf;
    var s' := Insert(s, h, author);
    forall x
      ensures x in s'.tips <==> x in s'.vertices && x != GENESIS && s'.vertices[x].successors == []
    {
      if x in s.vertices {
        assert x in h.predecessors <==> multiset(h.predecessors)[x] > 0;
      }
    }
  }

  lemma AppendCausal(g: Graph, g': Graph, seqn: seq<ID>, id: ID)
    requires Causal(g, seqn) && Extends(g, g')
    requires id !in seqn && id in g' && forall p :: p in g'[id].header.predecessors ==> p in seqn
    ensures Causal(g', seqn + [id])
  {
    var seqn' := seqn + [id];
    forall i | 0 <= i < |seqn'|
      ensures AfterPredecessors(g', seqn', i)
    {
      if i < |seqn| {
        assert AfterPredecessors(g, seqn, i);
        assert seqn'[..i] == seqn[..i];
      } else {
        assert seqn'[..i] == seqn;
      }
    }
  }

  lemma InsertCausal(s: State, h: Header, author: NodeID)
    requires Causal(s.vertices, s.sequence) && AllDelivered(s)
    requires AllIn(s.vertices, h.predecessors) && h.id !in s.vertices
    ensures Causal(Insert(s, h, author).vertices, Insert(s, h, author).sequence)
  {
    hide RoundOf, Causal, Linked;
    InsertExtends(s, h, author);
    forall p | p in h.predecessors
      ensures p in s.sequence
    {
      assert p in s.vertices;
    }
    AppendCausal(s.vertices, Insert(s, h, author).vertices, s.sequence, h.id);
  }

  lemma InsertDelivered(s: State, h: Header, author: NodeID)
    requires AllDelivered(s) && AllIn(s.vertices, h.predecessors) && h.id !in s.vertices && GENESIS in s.vertices
    ensures AllDelivered(Insert(s, h, author))
  {
    hide RoundOf, Insert, Extends;
    var s' := Insert(s, h, author);
    InsertExtends(s, h, author);
    InsertFields(s, h, author);
    assert forall x :: x in s'.sequence <==> x in s.sequence || x == h.id;
    assert s'.delivered == s'.vertices.Keys - {GENESIS};
  }

  lemma InsertFields(s: State, h: Header, author: NodeID)
    requires AllIn(s.vertices, h.predecessors)
    ensures Insert(s, h, author).sequence == s.sequence + [h.id]
    ensures Insert(s, h, author).delivered == s.delivered + {h.id}
  {
    hide RoundOf, Grown;
  }

  lemma InsertHeight(s: State, h: Header, author: NodeID)
    requires HeightRight(s) && AllIn(s.vertices, h.predecessors) && h.id !in s.vertices
    ensures HeightRight(Insert(s, h, author))
  {
    hide RoundOf, Grown;
    var s' := Insert(s, h, author);
    InsertExtends(s, h, author);
    var top :| top in s.vertices && s.vertices[top].round == s.height;
    assert s'.vertices[top].round == s.height;
    assert s'.vertices[h.id].round == RoundOf(s.vertices, h.predecessors);
  }

  lemma InsertTracking(s: State, h: Header, author: NodeID)
    requires TrackingRight(s) && AllIn(s.vertices, h.predecessors) && h.id !in s.vertices && GENESIS in s.vertices
    ensures TrackingRight(Insert(s, h, author))
  {
    hide RoundOf, Insert, Extends;
    var s' := Insert(s, h, author);
    InsertExtends(s, h, author);
    forall a, x
      ensures x in Tracked(s', a) <==> x in s'.vertices && x != GENESIS && s'.vertices[x].author == a
    {
      TrackedAfter(s, h, author, a, x);
      if x in s.vertices {
        AuthorKept(s.vertices, s'.vertices, x);
      }
    }
  }

  lemma TrackedAfter(s: State, h: Header, author: NodeID, a: NodeID, x: ID)
    requires AllIn(s.vertices, h.predecessors)
    ensures x in Tracked(Insert(s, h, author), a) <==> x in Tracked(s, a) || (a == author && x == h.id)
  {
    hide RoundOf, Grown;
  }

  lemma AuthorKept(g: Graph, g': Graph, x: ID)
    requires Extends(g, g') && x in g
    ensures x in g' && g'[x].author == g[x].author
  {
  }

  lemma NoRival(s: State, h: Header, author: NodeID, x: ID)
    requires TrackingRight(s) && AllIn(s.vertices, h.predecessors) && h.id !in s.vertices && !Equivocates(s, h, author)
    requires x in s.vertices && x != GENESIS && s.vertices[x].author == author
    ensures s.vertices[x].round != RoundOf(s.vertices, h.predecessors)
  {
    hide RoundOf;
    assert x in Tracked(s, author);
  }

  lemma InsertOnePerRound(s: State, h: Header, author: NodeID)
    requires OnePerRound(s.vertices) && TrackingRight(s)
    requires AllIn(s.vertices, h.predecessors) && h.id !in s.vertices && !Equivocates(s, h, author)
    ensures OnePerRound(Insert(s, h, author).vertices)
  {
    hide RoundOf, Insert, Equivocates, TrackingRight;
    var g, g' := s.vertices, Insert(s, h, author).vertices;
    InsertExtends(s, h, author);
    forall x | x in g && x != GENESIS && g[x].author == author
      ensures g[x].round != g'[h.id].round
    {
      NoRival(s, h, author, x);
    }
    forall x, y | Rivals(g', x, y)
      ensures x == y
    {
      assert x in g && y in g ==> Rivals(g, x, y);
    }
  }

  lemma FlagValid(s: State, author: NodeID)
    requires Valid(s)
    ensures Valid(s.(byzantine := s.byzantine + {author}))
  {
    hide WellFormed, Inverse, Causal, OnePerRound;
    var s' := s.(byzantine := s.byzantine + {author});
    assert forall a :: Tracked(s', a) == Tracked(s, a);
  }

  lemma InsertValid(s: State, h: Header, author: NodeID)
    requires Valid(s) && h.id !in s.vertices && AllIn(s.vertices, h.predecessors) && !Equivocates(s, h, author)
    ensures Valid(Insert(s, h, author))
  {
    hide Insert, Equivocates, WellFormed, Inverse, Causal, TipsRight, AllDelivered, HeightRight, TrackingRight;
    hide OnePerRound;
    HasGenesis(s.vertices);
    InsertWellFormed(s, h, author);
    InsertInverse(s, h, author);
    InsertTips(s, h, author);
    InsertCausal(s, h, author);
    InsertDelivered(s, h, author);
    InsertHeight(s, h, author);
    InsertTracking(s, h, author);
    InsertOnePerRound(s, h, author);
  }

  /** Every reachable DAG: adding any header, by anybody, keeps all the invariants, and no vertex
      ever leaves or changes its header, author or round. */
  lemma AddHeaderValid(s: State, h: Header, author: NodeID)
    requires Valid(s)
    ensures Valid(AddHeader(s, h, author).0)
    ensures Extends(s.vertices, AddHeader(s, h, author).0.vertices)
  {
    hide Insert, Equivocates, Valid;
    if h.id !in s.vertices && AllIn(s.vertices, h.predecessors) {
      if Equivocates(s, h, author) {
        FlagValid(s, author);
      } else {
        InsertExtends(s, h, author);
        InsertValid(s, h, author);
      }
    }
  }

  /** The author has a vertex at the round that these predecessors give. */
  ghost predicate HasRival(s: State, author: NodeID, ps: seq<ID>)
    requires AllIn(s.vertices, ps)
  {
    exists x :: x in s.vertices && x != GENESIS && s.vertices[x].author == author
                && s.vertices[x].round == RoundOf(s.vertices, ps)
  }

  /** What adding a header answers and does: it is held afterwards exactly if accepted; a new one is refused
      for an unknown predecessor, or else exactly if its author has a vertex at the same round, which flags
      the author and nobody else; and a new one that is accepted is delivered last, at the round that its
      predecessors give. */
  lemma AddHeaderExactly(s: State, h: Header, author: NodeID)
    requires Valid(s)
    ensures var (t, outcome) := AddHeader(s, h, author);
      && (outcome.Accepted? <==> h.id in t.vertices)
      && (outcome.InvalidPredecessor? <==> h.id !in s.vertices && exists p :: p in h.predecessors && p !in s.vertices)
      && (outcome.Equivocation? <==>
            h.id !in s.vertices && AllIn(s.vertices, h.predecessors) && HasRival(s, author, h.predecessors))
      && t.byzantine == (if outcome.Equivocation? then s.byzantine + {author} else s.byzantine)
      && (outcome.Accepted? && h.id !in s.vertices ==>
            && AllIn(s.vertices, h.predecessors)
            && t.vertices[h.id] == Vertex(h, author, RoundOf(s.vertices, h.predecessors), [], true)
            && t.sequence == s.sequence + [h.id] && LastRound(t) == RoundOf(s.vertices, h.predecessors))
  {
    hide RoundOf, WellFormed, Inverse, Causal, OnePerRound, HeightRight, AllDelivered, TipsRight;
    if h.id !in s.vertices && AllIn(s.vertices, h.predecessors) {
      InsertFields(s, h, author);
      assert HasRival(s, author, h.predecessors) <==> Equivocates(s, h, author);
    }
  }

  lemma HasGenesis(g: Graph)
    requires WellFormed(g)
    ensures GENESIS in g
  {
  }

  /** The DAG after a list of headers, each with its author. */
  ghost function Reached(calls: seq<(Header, NodeID)>): State {
    if calls == [] then START else
    AddHeader(Reached(calls[..|calls| - 1]), calls[|calls| - 1].0, calls[|calls| - 1].1).0
  }

  /** The invariants hold in every reachable DAG, whatever headers arrive, from whom, in what order. */
  lemma {:induction false} ReachedValid(calls: seq<(Header, NodeID)>)
    ensures Valid(Reached(calls))
    decreases |calls|
  {
    hide Valid, AddHeader;
    if calls == [] {
      StartValid();
    } else {
      ReachedValid(calls[..|calls| - 1]);
      AddHeaderValid(Reached(calls[..|calls| - 1]), calls[|calls| - 1].0, calls[|calls| - 1].1);
    }
  }
}
