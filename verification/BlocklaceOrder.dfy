/** What replicas agree on in the order of delivery. The sequence of a replica is called a total order, but
    it depends on arrival: replicas with the same headers share the causal order and nothing more. */
module BlocklaceOrder {
  import opened Blocklace
  import opened BlocklaceRounds

  /** The two graphs hold the same headers of the same authors. */
  ghost predicate SameHeaders(g: Graph, g': Graph) {
    g.Keys == g'.Keys && forall x :: x in g ==> g[x].header == g'[x].header && g[x].author == g'[x].author
  }

  /** The sequence lists the graph from genesis on, each vertex once and predecessors first. */
  ghost predicate Arrangement(g: Graph, order: seq<ID>) {
    order != [] && order[0] == GENESIS && Causal(g, order) && forall x :: x in order <==> x in g
  }

  lemma AddKeepsFirst(s: State, h: Header, a: NodeID)
    requires s.sequence != [] && s.sequence[0] == GENESIS
    ensures AddHeader(s, h, a).0.sequence != [] && AddHeader(s, h, a).0.sequence[0] == GENESIS
  {
    hide Insert, Equivocates;
    if AllIn(s.vertices, h.predecessors) {
      InsertFields(s, h, a);
    }
  }

  lemma {:induction false} GenesisFirst(calls: seq<(Header, NodeID)>)
    ensures Reached(calls).sequence != [] && Reached(calls).sequence[0] == GENESIS
    decreases |calls|
  {
    hide AddHeader;
    if calls != [] {
      var n := |calls| - 1;
      GenesisFirst(calls[..n]);
      AddKeepsFirst(Reached(calls[..n]), calls[n].0, calls[n].1);
    }
  }

  /** The sequence of every reachable DAG is such an arrangement of its headers. */
  lemma SequenceIsArrangement(calls: seq<(Header, NodeID)>)
    ensures Arrangement(Reached(calls).vertices, Reached(calls).sequence)
  {
    hide Reached, Causal, WellFormed, Inverse, TipsRight, HeightRight, TrackingRight, OnePerRound;
    ReachedValid(calls);
    GenesisFirst(calls);
  }

  // -------------------------------------------------------------------------------------------
  // Every arrangement is reached

  /** The headers of the graph in this order, with their authors. */
  ghost function Calls(g: Graph, order: seq<ID>): (calls: seq<(Header, NodeID)>)
    requires AllIn(g, order)
    ensures |calls| == |order|
  {
    seq(|order|, i requires 0 <= i < |order| => (g[order[i]].header, g[order[i]].author))
  }

  /** The DAG holds the listed part of the graph, delivered in this order. */
  ghost predicate HoldsPart(t: State, g: Graph, order: seq<ID>) {
    t.sequence == order && (forall x :: x in t.vertices <==> x in order) && Extends(t.vertices, g)
  }

  lemma NoRivalInPart(t: State, g: Graph, id: ID)
    requires Valid(t) && Extends(t.vertices, g) && WellFormed(g) && OnePerRound(g)
    requires id in g && id != GENESIS && id !in t.vertices && AllIn(t.vertices, g[id].header.predecessors)
    ensures !Equivocates(t, g[id].header, g[id].author)
  {
    hide RoundOf, Inverse, Causal, HeightRight, AllDelivered, TipsRight;
    var h := g[id].header;
    RoundOfSame(t.vertices, g, h.predecessors);
    forall x | x in Tracked(t, g[id].author) && x in t.vertices
      ensures t.vertices[x].round != RoundOf(t.vertices, h.predecessors)
    {
      assert !Rivals(g, x, id);
    }
  }

  lemma PartGrows(t: State, g: Graph, order: seq<ID>, id: ID)
    requires Valid(t) && HoldsPart(t, g, order) && WellFormed(g) && OnePerRound(g)
    requires id in g && id != GENESIS && id !in order && (forall p :: p in g[id].header.predecessors ==> p in order)
    ensures HoldsPart(AddHeader(t, g[id].header, g[id].author).0, g, order + [id])
  {
    hide RoundOf, Valid, Insert, Equivocates;
    var h, a := g[id].header, g[id].author;
    assert h.id == id;
    assert AllIn(t.vertices, h.predecessors);
    NoRivalInPart(t, g, id);
    InsertExtends(t, h, a);
    InsertFields(t, h, a);
    RoundOfSame(t.vertices, g, h.predecessors);
  }

  lemma ReachedNext(calls: seq<(Header, NodeID)>, n: nat)
    requires n < |calls|
    ensures Reached(calls[..n + 1]) == AddHeader(Reached(calls[..n]), calls[n].0, calls[n].1).0
  {
    hide AddHeader;
    assert calls[..n + 1][..n] == calls[..n];
  }

  lemma NextInOrder(g: Graph, order: seq<ID>, n: nat)
    requires Arrangement(g, order) && 0 < n < |order|
    ensures order[n] in g && order[n] != GENESIS && order[n] !in order[..n]
    ensures forall p :: p in g[order[n]].header.predecessors ==> p in order[..n]
    ensures order[..n + 1] == order[..n] + [order[n]]
  {
    assert AfterPredecessors(g, order, n);
  }

  lemma {:induction false} PrefixReached(g: Graph, order: seq<ID>, calls: seq<(Header, NodeID)>, n: nat)
    requires Arrangement(g, order) && WellFormed(g) && OnePerRound(g) && n < |order|
    requires AllIn(g, order[1..]) && calls == Calls(g, order[1..])
    ensures HoldsPart(Reached(calls[..n]), g, order[..n + 1])
    decreases n
  {
    hide AddHeader, WellFormed, OnePerRound, HoldsPart, Reached, Arrangement, Valid;
    if n == 0 {
      FirstOf(g, order);
      assert Reached(calls[..0]) == START by { assert calls[..0] == []; NothingReached(); }
      GenesisAlone(g);
    } else {
      PrefixReached(g, order, calls, n - 1);
      NextInOrder(g, order, n);
      ReachedNext(calls, n - 1);
      ReachedValid(calls[..n - 1]);
      PartGrows(Reached(calls[..n - 1]), g, order[..n], order[n]);
    }
  }

  lemma NothingReached()
    ensures Reached([]) == START
  {
  }

  lemma FirstOf(g: Graph, order: seq<ID>)
    requires Arrangement(g, order)
    ensures order[..1] == [GENESIS]
  {
  }

  lemma GenesisAlone(g: Graph)
    requires WellFormed(g)
    ensures HoldsPart(START, g, [GENESIS])
  {
    assert g[GENESIS].round == 0;
  }

  /** Every arrangement of the headers of a reachable DAG is the sequence of some replica that received
      the same headers. */
  lemma ArrangementReached(calls: seq<(Header, NodeID)>, order: seq<ID>) returns (calls': seq<(Header, NodeID)>)
    requires Arrangement(Reached(calls).vertices, order)
    ensures Reached(calls').sequence == order && SameHeaders(Reached(calls).vertices, Reached(calls').vertices)
  {
    hide Reached, Causal, WellFormed, Inverse, TipsRight, HeightRight, TrackingRight, OnePerRound, AllDelivered;
    var g := Reached(calls).vertices;
    ReachedValid(calls);
    assert AllIn(g, order[1..]);
    calls' := Calls(g, order[1..]);
    PrefixReached(g, order, calls', |order| - 1);
    assert order[..|order|] == order && calls'[..|order| - 1] == calls';
  }

  // -------------------------------------------------------------------------------------------
  // What all arrangements share

  ghost predicate Before(order: seq<ID>, x: ID, y: ID) {
    exists i, j :: 0 <= i < j < |order| && order[i] == x && order[j] == y
  }

  /** A chain of predecessors leads from `y` down to `x`. */
  ghost predicate Below(g: Graph, x: ID, y: ID) {
    exists c :: Chain(g, c) && c[0] == y && c[|c| - 1] == x
  }

  /** What a chain leads down to is delivered before its top. */
  lemma {:induction false} ChainBefore(g: Graph, order: seq<ID>, c: seq<ID>, j: nat) returns (i: nat)
    requires Causal(g, order) && Chain(g, c) && j < |order| && order[j] == c[0]
    ensures i <= j && order[i] == c[|c| - 1]
    decreases |c|
  {
    i := j;
    if |c| > 1 {
      assert AfterPredecessors(g, order, j);
      assert c[1] in order[..j];
      var k :| 0 <= k < j && order[k] == c[1];
      i := ChainBefore(g, order, c[1..], k);
    }
  }

  /** The members of the sequence inside or outside of a set, in order. */
  function Keep(order: seq<ID>, low: set<ID>, inside: bool): seq<ID> {
    if order == [] then [] else
    var n := |order| - 1;
    Keep(order[..n], low, inside) + if (order[n] in low) == inside then [order[n]] else []
  }

  lemma {:induction false} KeepMembers(order: seq<ID>, low: set<ID>, inside: bool, x: ID)
    ensures x in Keep(order, low, inside) <==> x in order && (x in low) == inside
    decreases |order|
  {
    if order != [] {
      var n := |order| - 1;
      KeepMembers(order[..n], low, inside, x);
      assert order == order[..n] + [order[n]];
    }
  }

  lemma {:induction false} KeepFirst(order: seq<ID>, low: set<ID>)
    requires order != [] && order[0] in low
    ensures Keep(order, low, true) != [] && Keep(order, low, true)[0] == order[0]
    decreases |order|
  {
    if |order| > 1 {
      KeepFirst(order[..|order| - 1], low);
    }
  }

  lemma CausalPrefix(g: Graph, order: seq<ID>, n: nat)
    requires Causal(g, order) && n < |order|
    ensures Causal(g, order[..n]) && order[n] !in order[..n] && AfterPredecessors(g, order, n)
  {
    forall i | 0 <= i < n
      ensures AfterPredecessors(g, order[..n], i)
    {
      assert AfterPredecessors(g, order, i);
      assert order[..n][..i] == order[..i];
    }
  }

  /** A set of vertices that holds the predecessors of its members. */
  ghost predicate Closed(g: Graph, low: set<ID>) {
    forall x, p :: x in low && x in g && p in g[x].header.predecessors ==> p in low
  }

  /** The members of a closed set can be delivered first. */
  lemma {:induction false} LowFirst(g: Graph, order: seq<ID>, low: set<ID>)
    requires Causal(g, order) && Closed(g, low)
    ensures Causal(g, Keep(order, low, true))
    decreases |order|
  {
    hide Causal;
    if order == [] {
      CausalNothing(g);
    } else {
      var n := |order| - 1;
      CausalPrefix(g, order, n);
      LowFirst(g, order[..n], low);
      if order[n] in low {
        forall x
          ensures x in Keep(order[..n], low, true) <==> x in order[..n] && x in low
        {
          KeepMembers(order[..n], low, true, x);
        }
        AppendCausal(g, g, Keep(order[..n], low, true), order[n]);
      } else {
        assert Keep(order, low, true) == Keep(order[..n], low, true);
      }
    }
  }

  lemma CausalNothing(g: Graph)
    ensures Causal(g, [])
  {
  }

  /** And the others after them. */
  lemma {:induction false} OthersAfter(g: Graph, first: seq<ID>, order: seq<ID>, low: set<ID>)
    requires Causal(g, first) && Causal(g, order)
    requires forall x :: x in first ==> x in low
    requires forall x :: x in order && x in low ==> x in first
    ensures Causal(g, first + Keep(order, low, false))
    decreases |order|
  {
    hide Causal;
    if order == [] {
      assert first + [] == first;
    } else {
      var n := |order| - 1;
      CausalPrefix(g, order, n);
      OthersAfter(g, first, order[..n], low);
      if order[n] in low {
        assert Keep(order, low, false) == Keep(order[..n], low, false);
      } else {
        forall x
          ensures x in Keep(order[..n], low, false) <==> x in order[..n] && x !in low
        {
          KeepMembers(order[..n], low, false, x);
        }
        var init := first + Keep(order[..n], low, false);
        assert init + [order[n]] == first + Keep(order, low, false);
        AppendCausal(g, g, init, order[n]);
      }
    }
  }

  lemma Reordered(g: Graph, order: seq<ID>, low: set<ID>) returns (order': seq<ID>)
    requires Arrangement(g, order) && Closed(g, low) && GENESIS in low
    ensures Arrangement(g, order')
    ensures forall x, y :: y in g && y in low && x in g && x !in low ==> Before(order', y, x)
  {
    hide Causal, Closed;
    var first, rest := Keep(order, low, true), Keep(order, low, false);
    order' := first + rest;
    KeepFirst(order, low);
    LowFirst(g, order, low);
    forall x
      ensures (x in first <==> x in order && x in low) && (x in rest <==> x in order && x !in low)
    {
      KeepMembers(order, low, true, x);
      KeepMembers(order, low, false, x);
    }
    OthersAfter(g, first, order, low);
    forall x, y | y in g && y in low && x in g && x !in low
      ensures Before(order', y, x)
    {
      var i :| 0 <= i < |first| && first[i] == y;
      var j :| 0 <= j < |rest| && rest[j] == x;
      assert order'[i] == y && order'[|first| + j] == x;
    }
  }

  /** Genesis and all that lies at or below a vertex. */
  ghost function Down(g: Graph, y: ID): set<ID> {
    set x | x in g && (x == GENESIS || Below(g, x, y))
  }

  lemma DownClosed(g: Graph, y: ID)
    requires WellFormed(g)
    ensures Closed(g, Down(g, y))
  {
    hide RoundOf;
    forall x, p | x in Down(g, y) && p in g[x].header.predecessors
      ensures p in Down(g, y)
    {
      var c :| Chain(g, c) && c[0] == y && c[|c| - 1] == x;
      assert p in g;
      ChainAppend(g, c, p);
      assert (c + [p])[0] == y;
    }
  }

  lemma NotBothWays(g: Graph, order: seq<ID>, x: ID, y: ID)
    requires Causal(g, order) && Before(order, y, x)
    ensures !Before(order, x, y)
  {
  }

  /** Every replica with the headers of this one delivers `x` before `y`. */
  ghost predicate AlwaysBefore(g: Graph, x: ID, y: ID) {
    forall calls :: SameHeaders(g, Reached(calls).vertices) ==> Before(Reached(calls).sequence, x, y)
  }

  lemma BelowIsBefore(g: Graph, calls: seq<(Header, NodeID)>, x: ID, y: ID)
    requires SameHeaders(g, Reached(calls).vertices) && Below(g, x, y) && x != y
    ensures Before(Reached(calls).sequence, x, y)
  {
    hide Reached, Causal;
    var t := Reached(calls);
    SequenceIsArrangement(calls);
    var c :| Chain(g, c) && c[0] == y && c[|c| - 1] == x;
    assert Chain(t.vertices, c);
    assert y in t.sequence;
    var j :| 0 <= j < |t.sequence| && t.sequence[j] == y;
    var i := ChainBefore(t.vertices, t.sequence, c, j);
  }

  /** For the headers of every reachable DAG: all replicas that hold them deliver `x` before `y` if and only
      if a chain of predecessors leads from `y` down to `x`. */
  lemma DeliveryOrderExactly(calls: seq<(Header, NodeID)>, x: ID, y: ID)
    requires x in Reached(calls).vertices && y in Reached(calls).vertices && x != y && x != GENESIS
    ensures AlwaysBefore(Reached(calls).vertices, x, y) <==> Below(Reached(calls).vertices, x, y)
  {
    hide Reached, Causal, SameHeaders, Below, WellFormed, Inverse, TipsRight, HeightRight, TrackingRight, OnePerRound;
    hide AllDelivered, Before;
    var s := Reached(calls);
    if Below(s.vertices, x, y) {
      forall calls' | SameHeaders(s.vertices, Reached(calls').vertices)
        ensures Before(Reached(calls').sequence, x, y)
      {
        BelowIsBefore(s.vertices, calls', x, y);
      }
    } else {
      ReachedValid(calls);
      SequenceIsArrangement(calls);
      DownClosed(s.vertices, y);
      SelfBelow(s.vertices, y);
      HasGenesis(s.vertices);
      var order := Reordered(s.vertices, s.sequence, Down(s.vertices, y));
      NotBothWays(s.vertices, order, x, y);
      var calls' := ArrangementReached(calls, order);
    }
  }

  lemma SelfBelow(g: Graph, y: ID)
    requires y in g
    ensures Below(g, y, y)
  {
    assert Chain(g, [y]);
  }

  /** Two headers without predecessors, of different authors, come in either order. */
  lemma ConcurrentHeaders(x: ID, y: ID, a: NodeID, b: NodeID)
    requires x != GENESIS && y != GENESIS && x != y && a != b
    ensures var s, t := Reached([(Header(x, [], 0), a), (Header(y, [], 0), b)]),
                        Reached([(Header(y, [], 0), b), (Header(x, [], 0), a)]);
      SameHeaders(s.vertices, t.vertices) && s.sequence == [GENESIS, x, y] && t.sequence == [GENESIS, y, x]
  {
    TwoRoots(x, y, a, b);
    TwoRoots(y, x, b, a);
  }

  lemma TwoRoots(x: ID, y: ID, a: NodeID, b: NodeID)
    requires x != GENESIS && y != GENESIS && x != y && a != b
    ensures var s := Reached([(Header(x, [], 0), a), (Header(y, [], 0), b)]);
      && s.sequence == [GENESIS, x, y] && s.vertices.Keys == {GENESIS, x, y}
      && s.vertices[GENESIS].header == Header(GENESIS, [], 0) && s.vertices[GENESIS].author == NOBODY
      && s.vertices[x].header == Header(x, [], 0) && s.vertices[x].author == a
      && s.vertices[y].header == Header(y, [], 0) && s.vertices[y].author == b
  {
    hide Insert;
    var hx, hy := Header(x, [], 0), Header(y, [], 0);
    var one := Insert(START, hx, a);
    InsertExtends(START, hx, a);
    InsertFields(START, hx, a);
    RootAccepted(START, hx, a);
    InsertExtends(one, hy, b);
    InsertFields(one, hy, b);
    FreshAuthor(x, a, b);
    RootAccepted(one, hy, b);
    assert [(hx, a), (hy, b)][..1] == [(hx, a)] && [(hx, a)][..0] == [];
    assert Reached([(hx, a)]) == one;
  }

  lemma FreshAuthor(x: ID, a: NodeID, b: NodeID)
    requires a != b
    ensures Tracked(Insert(START, Header(x, [], 0), a), b) == []
  {
  }

  /** A header without predecessors of an author without vertices is added. */
  lemma RootAccepted(s: State, h: Header, a: NodeID)
    requires h.id !in s.vertices && h.predecessors == [] && Tracked(s, a) == []
    ensures AddHeader(s, h, a) == (Insert(s, h, a), Accepted)
  {
    hide Insert;
  }
}
