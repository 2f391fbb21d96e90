/** The DAG and miner objects, step by step, proved to compute the state functions of `Blocklace`. */
module BlocklaceDag {
  import opened Numbers
  import opened Blocklace
  import opened CordialMiners

  ghost predicate Closed(g: Graph) {
    forall x :: x in g ==> AllIn(g, g[x].header.predecessors) && AllIn(g, g[x].successors)
  }

  /** The sequence lists exactly the delivered vertices, predecessors first. */
  ghost predicate DeliveredInOrder(g: Graph, seqn: seq<ID>) {
    Causal(g, seqn) && forall x :: x in g ==> (g[x].delivered <==> x in seqn)
  }

  ghost function Undelivered(g: Graph): set<ID> {
    set x | x in g && !g[x].delivered
  }

  /** `g'` is `g` with at least the same vertices delivered and nothing else changed. */
  ghost predicate OnlyDelivers(g: Graph, g': Graph) {
    && g'.Keys == g.Keys
    && forall x :: x in g ==> g'[x].(delivered := g[x].delivered) == g[x] && (g[x].delivered ==> g'[x].delivered)
  }

  lemma DeliverOne(g: Graph, seqn: seq<ID>, id: ID)
    requires Closed(g) && DeliveredInOrder(g, seqn) && id in g && !g[id].delivered
    requires forall p :: p in g[id].header.predecessors ==> g[p].delivered
    ensures var g' := g[id := g[id].(delivered := true)];
      Closed(g') && DeliveredInOrder(g', seqn + [id]) && OnlyDelivers(g, g') && Undelivered(g') < Undelivered(g)
  {
    var g' := g[id := g[id].(delivered := true)];
    assert Extends(g, g');
    AppendCausal(g, g', seqn, id);
    assert id in Undelivered(g);
  }

  lemma FewerUndelivered(g: Graph, g': Graph)
    requires OnlyDelivers(g, g')
    ensures Undelivered(g') <= Undelivered(g)
  {
  }

  lemma OnlyDeliversTrans(g: Graph, g': Graph, g'': Graph)
    requires OnlyDelivers(g, g') && OnlyDelivers(g', g'') && Closed(g)
    ensures OnlyDelivers(g, g'') && Closed(g'')
  {
  }

  lemma TrackedKnown(s: State, author: NodeID)
    requires Valid(s)
    ensures forall x :: x in Tracked(s, author) ==> x in s.vertices
  {
    hide WellFormed, Inverse, Causal, OnePerRound, HeightRight;
  }

  class DAG {
    var vertices: Graph
    var tips: set<ID>
    var equivocations: map<NodeID, seq<ID>>
    var byzantine: set<NodeID>
    var sequence: seq<ID>
    var delivered: set<ID>
    var height: nat
    var width: nat

    ghost function View(): State
      reads this
    {
      State(vertices, tips, equivocations, byzantine, sequence, delivered, height, width)
    }

    constructor ()
      ensures View() == START && Valid(View())
    {
      vertices := map[GENESIS := GENESIS_VERTEX];
      tips, equivocations, byzantine := {}, map[], {};
      sequence, delivered, height, width := [GENESIS], {}, 0, 0;
      StartValid();
    }

    method CalculateRound(predecessors: seq<ID>) returns (round: nat)
      requires AllIn(vertices, predecessors)
      ensures round == RoundOf(vertices, predecessors)
    {
      if |predecessors| == 0 {
        return 0;
      }
      round := 0;
      for i := 0 to |predecessors|
        invariant round == MaxRound(vertices, predecessors[..i])
      {
        assert predecessors[..i + 1][..i] == predecessors[..i];
        if vertices[predecessors[i]].round > round {
          round := vertices[predecessors[i]].round;
        }
      }
      assert predecessors[..|predecessors|] == predecessors;
      round := round + 1;
    }

    /** Tracks the vertex under its author unless the author already has one at this round. */
    method DetectEquivocation(header: Header, author: NodeID, round: nat) returns (found: bool)
      requires AllIn(vertices, header.predecessors) && round == RoundOf(vertices, header.predecessors)
      requires forall x :: x in Tracked(View(), author) ==> x in vertices
      modifies this`equivocations
      ensures found <==> Equivocates(old(View()), header, author)
      ensures equivocations == if found then old(equivocations)
                               else old(equivocations)[author := Tracked(old(View()), author) + [header.id]]
    {
      hide RoundOf;
      var tracked := if author in equivocations then equivocations[author] else [];
      for i := 0 to |tracked|
        invariant forall k :: 0 <= k < i ==> vertices[tracked[k]].round != round || tracked[k] == header.id
      {
        var x := tracked[i];
        if vertices[x].round == round && x != header.id {
          return true;
        }
      }
      equivocations := equivocations[author := tracked + [header.id]];
      found := false;
    }

    /** Appends the new vertex to the successors of each predecessor. */
    method LinkPredecessors(header: Header)
      requires AllIn(vertices, header.predecessors) && header.id !in header.predecessors
      modifies this`vertices
      ensures vertices == Linked(old(vertices), header.predecessors, header.id)
    {
      var ps := header.predecessors;
      assert vertices == Linked(vertices, ps[..0], header.id) by { LinkedNone(vertices, ps, header.id); }
      for i := 0 to |ps|
        invariant vertices == Linked(old(vertices), ps[..i], header.id)
        invariant vertices.Keys == old(vertices).Keys
      {
        LinkedNext(old(vertices), ps, i, header.id);
        var p := ps[i];
        vertices := vertices[p := vertices[p].(successors := vertices[p].successors + [header.id])];
      }
      assert ps[..|ps|] == ps;
    }

    method UpdateTips(id: ID, predecessors: seq<ID>)
      modifies this`tips, this`width
      ensures tips == old(tips) + {id} - (set p | p in predecessors) && width == |tips|
    {
      tips := tips + {id};
      for i := 0 to |predecessors|
        invariant tips == old(tips) + {id} - (set p | p in predecessors[..i])
      {
        assert predecessors[..i + 1] == predecessors[..i] + [predecessors[i]];
        tips := tips - {predecessors[i]};
      }
      assert predecessors[..|predecessors|] == predecessors;
      width := |tips|;
    }

    /** Adding a header computes exactly the specified state and outcome; every DAG stays valid. */
    method AddHeader(header: Header, author: NodeID) returns (outcome: Outcome)
      requires Valid(View())
      modifies this
      ensures (View(), outcome) == Blocklace.AddHeader(old(View()), header, author)
      ensures Valid(View())
    {
      hide Valid, Equivocates, RoundOf, Linked;
      AddHeaderValid(View(), header, author);
      if header.id in vertices {
        return Accepted;
      }
      var known := Known(header.predecessors);
      if !known {
        return InvalidPredecessor;
      }
      var round := CalculateRound(header.predecessors);
      TrackedKnown(View(), author);
      var found := DetectEquivocation(header, author, round);
      if found {
        byzantine := byzantine + {author};
        return Equivocation;
      }
      AddVertex(header, author, round, old(View()));
      outcome := Accepted;
    }

    method Known(ps: seq<ID>) returns (all: bool)
      ensures all <==> AllIn(vertices, ps)
    {
      for i := 0 to |ps|
        invariant forall k :: 0 <= k < i ==> ps[k] in vertices
      {
        if ps[i] !in vertices {
          return false;
        }
      }
      all := true;
    }

    /** Adds a vertex that passed all checks: links it, updates the tips and delivers it. */
    method AddVertex(header: Header, author: NodeID, round: nat, ghost s: State)
      requires Valid(s) && AllIn(s.vertices, header.predecessors) && header.id !in s.vertices
      requires round == RoundOf(s.vertices, header.predecessors)
      requires View() == s.(equivocations := s.equivocations[author := Tracked(s, author) + [header.id]])
      modifies this
      ensures View() == Insert(s, header, author)
    {
      hide RoundOf, Valid, Linked, Closed, DeliveredInOrder, OnlyDelivers, Insert, Prepared;
      PreparedFits(s, header, author, round);
      vertices := vertices[header.id := Vertex(header, author, round, [], false)];
      LinkPredecessors(header);
      UpdateTips(header.id, header.predecessors);
      TryDeliver(header.id);
      InsertedView(s, header, author, round);
    }

    /** The tips, each once, in an arbitrary order. */
    method GetTips() returns (result: seq<ID>)
      ensures |result| == |tips| && forall x :: x in result <==> x in tips
    {
      result := [];
      var rest := tips;
      while rest != {}
        invariant rest <= tips && |result| + |rest| == |tips|
        invariant forall x :: x in result <==> x in tips && x !in rest
        decreases |rest|
      {
        var x :| x in rest;
        result := result + [x];
        rest := rest - {x};
      }
    }

    method PredecessorsDelivered(id: ID) returns (all: bool)
      requires Closed(vertices) && id in vertices
      ensures all <==> forall p :: p in vertices[id].header.predecessors ==> vertices[p].delivered
    {
      var ps := vertices[id].header.predecessors;
      for i := 0 to |ps|
        invariant forall k :: 0 <= k < i ==> vertices[ps[k]].delivered
      {
        if !vertices[ps[i]].delivered {
          return false;
        }
      }
      all := true;
    }

    /** Delivers the vertex if its predecessors are delivered, and then tries its successors. In any
        graph the delivered sequence stays in causal order; a vertex without successors is delivered
        alone. */
    method TryDeliver(id: ID)
      requires Closed(vertices) && DeliveredInOrder(vertices, sequence)
      requires id in vertices && !vertices[id].delivered
      modifies this`vertices, this`sequence, this`delivered, this`height
      ensures Closed(vertices) && DeliveredInOrder(vertices, sequence)
      ensures OnlyDelivers(old(vertices), vertices)
      ensures old(vertices)[id].successors == []
              && (forall p :: p in old(vertices)[id].header.predecessors ==> old(vertices)[p].delivered) ==>
        && vertices == old(vertices)[id := old(vertices)[id].(delivered := true)]
        && sequence == old(sequence) + [id]
        && delivered == old(delivered) + {id}
        && height == Max(old(height), old(vertices)[id].round)
      decreases Undelivered(vertices), 0
    {
      hide DeliveredInOrder, Causal;
      var ready := PredecessorsDelivered(id);
      if !ready {
        return;
      }
      DeliverOne(vertices, sequence, id);
      vertices := vertices[id := vertices[id].(delivered := true)];
      delivered := delivered + {id};
      sequence := sequence + [id];
      if vertices[id].round > height {
        height := vertices[id].round;
      }
      DeliverSuccessors(vertices[id].successors);
    }

    method DeliverSuccessors(succs: seq<ID>)
      requires Closed(vertices) && DeliveredInOrder(vertices, sequence) && AllIn(vertices, succs)
      modifies this`vertices, this`sequence, this`delivered, this`height
      ensures Closed(vertices) && DeliveredInOrder(vertices, sequence) && OnlyDelivers(old(vertices), vertices)
      ensures succs == [] ==> vertices == old(vertices) && sequence == old(sequence)
                              && delivered == old(delivered) && height == old(height)
      decreases Undelivered(vertices), 1
    {
      hide DeliveredInOrder;
      for i := 0 to |succs|
        invariant Closed(vertices) && DeliveredInOrder(vertices, sequence) && OnlyDelivers(old(vertices), vertices)
        invariant succs == [] ==> vertices == old(vertices) && sequence == old(sequence)
                                  && delivered == old(delivered) && height == old(height)
      {
        if !vertices[succs[i]].delivered {
          ghost var before := vertices;
          FewerUndelivered(old(vertices), before);
          TryDeliver(succs[i]);
          OnlyDeliversTrans(old(vertices), before, vertices);
        }
      }
    }
  }

  /** The graph just before the new vertex is delivered. */
  ghost function Prepared(g: Graph, h: Header, author: NodeID, round: nat): Graph {
    Linked(g, h.predecessors, h.id)[h.id := Vertex(h, author, round, [], false)]
  }

  /** Delivering the prepared vertex completes the insertion. */
  lemma InsertedView(s: State, h: Header, author: NodeID, round: nat)
    requires AllIn(s.vertices, h.predecessors) && round == RoundOf(s.vertices, h.predecessors)
    ensures var tips := s.tips + {h.id} - (set p | p in h.predecessors);
      Insert(s, h, author) == State(
        Prepared(s.vertices, h, author, round)[h.id := Vertex(h, author, round, [], true)],
        tips, s.equivocations[author := Tracked(s, author) + [h.id]], s.byzantine,
        s.sequence + [h.id], s.delivered + {h.id}, Max(s.height, round), |tips|)
  {
    hide RoundOf, Linked;
  }

  lemma LinkedWithNew(g: Graph, h: Header, v: Vertex)
    requires h.id !in h.predecessors && h.id !in g
    ensures Linked(g[h.id := v], h.predecessors, h.id) == Linked(g, h.predecessors, h.id)[h.id := v]
  {
    var l, r := Linked(g[h.id := v], h.predecessors, h.id), Linked(g, h.predecessors, h.id)[h.id := v];
    assert h.id !in multiset(h.predecessors);
    assert v.successors + Copies(0, h.id) == v.successors;
    assert l[h.id] == v;
    assert forall x :: x in g ==> l[x] == r[x];
  }

  lemma SuccessorsKnown(g: Graph, g': Graph, succs: seq<ID>, n: nat, id: ID)
    requires g.Keys <= g'.Keys && id in g' && forall y :: y in succs ==> y in g
    ensures AllIn(g', succs + Copies(n, id))
  {
    forall i | 0 <= i < |succs|
      ensures succs[i] in g
    {
      assert succs[i] in succs;
    }
  }

  lemma PreparedClosed(g: Graph, h: Header, author: NodeID, round: nat)
    requires WellFormed(g) && Inverse(g) && AllIn(g, h.predecessors) && h.id !in g
    ensures Closed(Prepared(g, h, author, round))
  {
    hide RoundOf, Copies;
    var g' := Prepared(g, h, author, round);
    forall x | x in g'
      ensures AllIn(g', g'[x].header.predecessors) && AllIn(g', g'[x].successors)
    {
      if x in g {
        SuccessorsKnown(g, g', g[x].successors, multiset(h.predecessors)[x], h.id);
      }
    }
  }

  lemma PreparedInOrder(s: State, h: Header, author: NodeID, round: nat)
    requires Causal(s.vertices, s.sequence) && AllDelivered(s)
    requires AllIn(s.vertices, h.predecessors) && h.id !in s.vertices
    ensures DeliveredInOrder(Prepared(s.vertices, h, author, round), s.sequence)
  {
    var g, g' := s.vertices, Prepared(s.vertices, h, author, round);
    forall i | 0 <= i < |s.sequence|
      ensures AfterPredecessors(g', s.sequence, i)
    {
      assert AfterPredecessors(g, s.sequence, i);
    }
  }

  lemma PreparedReady(s: State, h: Header, author: NodeID, round: nat)
    requires AllDelivered(s) && AllIn(s.vertices, h.predecessors) && h.id !in s.vertices
    ensures forall p :: p in h.predecessors ==>
      p in Prepared(s.vertices, h, author, round) && Prepared(s.vertices, h, author, round)[p].delivered
  {
  }

  lemma PreparedFits(s: State, h: Header, author: NodeID, round: nat)
    requires Valid(s) && AllIn(s.vertices, h.predecessors) && h.id !in s.vertices
    ensures var g := Prepared(s.vertices, h, author, round);
      && Closed(g) && DeliveredInOrder(g, s.sequence)
      && h.id in g && g[h.id] == Vertex(h, author, round, [], false)
      && (forall p :: p in h.predecessors ==> p in g && g[p].delivered)
    ensures Linked(s.vertices[h.id := Vertex(h, author, round, [], false)], h.predecessors, h.id)
         == Prepared(s.vertices, h, author, round)
    ensures h.id !in h.predecessors && AllIn(s.vertices[h.id := Vertex(h, author, round, [], false)], h.predecessors)
  {
    hide RoundOf, Causal, Inverse, WellFormed, TrackingRight, OnePerRound, HeightRight, Linked, Closed, AllDelivered;
    PreparedClosed(s.vertices, h, author, round);
    PreparedInOrder(s, h, author, round);
    PreparedReady(s, h, author, round);
    LinkedWithNew(s.vertices, h, Vertex(h, author, round, [], false));
  }

  class CordialMiner {
    const id: NodeID
    const dag: DAG
    var round: nat

    constructor (id: NodeID, dag: DAG)
      ensures this.id == id && this.dag == dag && round == 0
    {
      this.id, this.dag, round := id, dag, 0;
    }

    /** Proposes a header on the current tips under a fresh ID; it is broadcast only if it was added. */
    method ProposeHeader(newID: ID) returns (header: Header, outcome: Outcome)
      requires Valid(dag.View()) && newID !in dag.vertices
      modifies this, dag
      ensures Valid(dag.View())
      ensures header.id == newID && header.height == old(round)
      ensures |header.predecessors| == |old(dag.tips)|
      ensures forall x :: x in header.predecessors <==> x in old(dag.tips)
      ensures var begun := RoundRead(Taken(Idle(old(dag.View()), old(round)), header.predecessors, id), 0);
        var (added, result) := Proposed(begun, 0, newID, id);
        && outcome == result
        && Idle(dag.View(), round) == if outcome.Accepted? then Stored(Loaded(added, 0), 0) else added
      ensures round == if outcome.Accepted? then old(round) + 1 else old(round)
      ensures outcome.Accepted? <==> newID in dag.vertices
    {
      hide Valid, Blocklace.AddHeader, Own;
      var tips := dag.GetTips();
      header := Header(newID, tips, round);
      ghost var draft := Built(tips, Own(dag.View(), id), round);
      assert [Drawn(tips, Own(dag.View(), id))][0 := draft] == [draft];
      assert Without([draft], 0) == [];
      ghost var raising := Raising(newID, round, round);
      assert [draft][0 := Added(newID, round)] == [Added(newID, round)];
      assert [Added(newID, round)][0 := raising] == [raising] && Without([raising], 0) == [];
      AddHeaderExactly(dag.View(), header, id);
      outcome := dag.AddHeader(header, id);
      if outcome.Accepted? {
        round := round + 1;
      }
    }

    /** Ignores senders marked Byzantine; otherwise adds the header and, if it is new and accepted, catches up
        with the round that its predecessors give. */
    method ReceiveHeader(header: Header, sender: NodeID) returns (outcome: Outcome)
      requires Valid(dag.View())
      modifies this, dag
      ensures Valid(dag.View())
      ensures sender in old(dag.byzantine) ==> Idle(dag.View(), round) == Idle(old(dag.View()), old(round))
      ensures sender !in old(dag.byzantine) ==>
        var admitted := Idle(old(dag.View()), old(round)).(admitted := [header.id]);
        var (received, result) := Received(admitted, 0, Message(header, sender));
        Idle(dag.View(), round) == if result.Accepted? then CaughtUp(received) else received
      ensures outcome == if sender in old(dag.byzantine) then Byzantine
                         else Blocklace.AddHeader(old(dag.View()), header, sender).1
      ensures outcome.Accepted? && header.id !in old(dag.vertices) ==>
        && AllIn(old(dag.vertices), header.predecessors)
        && round == Max(old(round), RoundOf(old(dag.vertices), header.predecessors))
      ensures !outcome.Accepted? ==> round == old(round)
    {
      hide Valid, Blocklace.AddHeader, LastRound;
      AddHeaderExactly(dag.View(), header, sender);
      if sender in dag.byzantine {
        return Byzantine;
      }
      outcome := dag.AddHeader(header, sender);
      assert Without([header.id], 0) == [];
      if outcome.Accepted? {
        LastDelivered(dag.View());
        ghost var latest := LastRound(dag.View());
        LatestRound(dag.View());
        assert Without([latest], 0) == [];
        var last := dag.sequence[|dag.sequence| - 1];
        if dag.vertices[last].round > round {
          round := dag.vertices[last].round;
        }
      }
    }
  }

  lemma LatestRound(s: State)
    requires s.sequence != [] && s.sequence[|s.sequence| - 1] in s.vertices
    ensures LastRound(s) == s.vertices[s.sequence[|s.sequence| - 1]].round
  {
  }

  lemma LastDelivered(s: State)
    requires Valid(s)
    ensures s.sequence != [] && s.sequence[|s.sequence| - 1] in s.vertices
  {
    hide WellFormed, Inverse, Causal;
    HasGenesis(s.vertices);
  }

  lemma LinkedNone(g: Graph, ps: seq<ID>, id: ID)
    ensures Linked(g, ps[..0], id) == g
  {
    forall x | x in g
      ensures Linked(g, ps[..0], id)[x] == g[x]
    {
      assert g[x].successors + Copies(0, id) == g[x].successors;
    }
  }

  lemma LinkedNext(g: Graph, ps: seq<ID>, i: nat, id: ID)
    requires i < |ps| && ps[i] in g
    ensures var h := Linked(g, ps[..i], id);
      ps[i] in h && Linked(g, ps[..i + 1], id) == h[ps[i] := h[ps[i]].(successors := h[ps[i]].successors + [id])]
  {
    var h, h' := Linked(g, ps[..i], id), Linked(g, ps[..i + 1], id);
    assert ps[..i + 1] == ps[..i] + [ps[i]];
    var n := multiset(ps[..i])[ps[i]];
    assert multiset(ps[..i + 1])[ps[i]] == n + 1;
    assert Copies(n + 1, id) == Copies(n, id) + [id];
    assert g[ps[i]].successors + Copies(n + 1, id) == (g[ps[i]].successors + Copies(n, id)) + [id];
    forall x | x in g && x != ps[i]
      ensures h'[x] == h[x]
    {
      assert multiset(ps[..i + 1])[x] == multiset(ps[..i])[x];
    }
  }
}
