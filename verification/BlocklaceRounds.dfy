/** What rounds, tips and height mean: they depend on the headers alone, not on their arrival. */
module BlocklaceRounds {
  import opened Blocklace

  /** Each vertex of the chain names the next one as a predecessor. */
  ghost predicate Chain(g: Graph, c: seq<ID>) {
    && c != [] && AllIn(g, c)
    && forall i :: 0 <= i < |c| - 1 ==> c[i + 1] in g[c[i]].header.predecessors
  }

  lemma PredecessorRound(g: Graph, x: ID, p: ID)
    requires WellFormed(g) && x in g && p in g[x].header.predecessors
    ensures p in g && g[p].round < g[x].round
  {
    hide MaxRound;
    MaxRoundBounds(g, g[x].header.predecessors);
  }

  /** No chain down from a vertex is longer than its round. */
  lemma {:induction false} ChainBound(g: Graph, c: seq<ID>)
    requires WellFormed(g) && Chain(g, c)
    ensures |c| - 1 <= g[c[0]].round
    decreases |c|
  {
    if |c| > 1 {
      ChainBound(g, c[1..]);
      PredecessorRound(g, c[0], c[1]);
    }
  }

  /** Some chain down to a vertex without predecessors is exactly as long as the round. */
  lemma {:induction false} LongestChain(g: Graph, x: ID) returns (c: seq<ID>)
    requires WellFormed(g) && x in g
    ensures Chain(g, c) && c[0] == x && |c| - 1 == g[x].round
    ensures g[c[|c| - 1]].header.predecessors == []
    decreases g[x].round
  {
    hide MaxRound;
    var ps := g[x].header.predecessors;
    if ps == [] {
      return [x];
    }
    MaxRoundBounds(g, ps);
    var p :| p in ps && g[p].round == MaxRound(g, ps);
    var d := LongestChain(g, p);
    c := [x] + d;
  }

  /** The round of a vertex is the length of its longest chain of predecessors. */
  lemma RoundIsLongestChain(g: Graph, x: ID, n: nat)
    requires WellFormed(g) && x in g
    ensures n == g[x].round <==>
      && (exists c :: Chain(g, c) && c[0] == x && |c| - 1 == n && g[c[|c| - 1]].header.predecessors == [])
      && (forall c :: Chain(g, c) && c[0] == x ==> |c| - 1 <= n)
  {
    hide WellFormed, RoundOf;
    var longest := LongestChain(g, x);
    forall c | Chain(g, c) && c[0] == x
      ensures |c| - 1 <= g[x].round
    {
      ChainBound(g, c);
    }
  }

  /** Two graphs give the same header to every ID they share. */
  ghost predicate Compatible(g: Graph, g': Graph) {
    forall x :: x in g && x in g' ==> g[x].header == g'[x].header
  }

  /** Replicas agree on the round of every shared header, whatever the order of arrival. */
  lemma {:induction false} RoundsAgree(g: Graph, g': Graph, x: ID)
    requires WellFormed(g) && WellFormed(g') && Compatible(g, g')
    requires x in g && x in g'
    ensures g[x].round == g'[x].round
    decreases g[x].round
  {
    hide MaxRound;
    var ps := g[x].header.predecessors;
    assert g'[x].header.predecessors == ps;
    forall p | p in ps
      ensures g[p].round == g'[p].round
    {
      PredecessorRound(g, x, p);
      RoundsAgree(g, g', p);
    }
    MaxRoundSame(g, g', ps);
  }

  /** Agreement also holds for a header that is about to be added. */
  lemma RoundOfAgrees(g: Graph, g': Graph, ps: seq<ID>)
    requires WellFormed(g) && WellFormed(g') && Compatible(g, g')
    requires AllIn(g, ps) && AllIn(g', ps)
    ensures RoundOf(g, ps) == RoundOf(g', ps)
  {
    hide MaxRound, WellFormed;
    forall p | p in ps
      ensures g[p].round == g'[p].round
    {
      RoundsAgree(g, g', p);
    }
    MaxRoundSame(g, g', ps);
  }

  /** A vertex has a successor exactly when some vertex names it. */
  lemma SuccessorNamesIt(g: Graph, x: ID)
    requires Inverse(g) && x in g
    ensures g[x].successors != [] <==> exists y :: y in g && x in g[y].header.predecessors
  {
    if g[x].successors != [] {
      var y := g[x].successors[0];
      assert y in g[x].successors;
      assert y in multiset(g[x].successors);
      assert x in multiset(g[y].header.predecessors);
    }
    forall y | y in g && x in g[y].header.predecessors
      ensures g[x].successors != []
    {
      assert x in multiset(g[y].header.predecessors);
      assert y in multiset(g[x].successors);
    }
  }

  /** Replicas that hold the same headers agree on tips and height. */
  lemma SameHeadersSameView(s: State, t: State)
    requires Valid(s) && Valid(t)
    requires s.vertices.Keys == t.vertices.Keys && Compatible(s.vertices, t.vertices)
    ensures s.tips == t.tips && s.width == t.width && s.height == t.height
  {
    hide Causal, Inverse, WellFormed, OnePerRound;
    forall x | x in s.vertices
      ensures x in s.tips <==> x in t.tips
    {
      SuccessorNamesIt(s.vertices, x);
      SuccessorNamesIt(t.vertices, x);
    }
    assert s.tips == t.tips;
    assert s.height == t.height by { SameHeight(s, t); }
  }

  lemma SameHeight(s: State, t: State)
    requires HeightRight(s) && HeightRight(t) && WellFormed(s.vertices) && WellFormed(t.vertices)
    requires s.vertices.Keys == t.vertices.Keys && Compatible(s.vertices, t.vertices)
    ensures s.height == t.height
  {
    hide WellFormed;
    var x :| x in s.vertices && s.vertices[x].round == s.height;
    var y :| y in t.vertices && t.vertices[y].round == t.height;
    RoundsAgree(s.vertices, t.vertices, x);
    RoundsAgree(s.vertices, t.vertices, y);
  }

  lemma ChainAppend(g: Graph, c: seq<ID>, x: ID)
    requires Chain(g, c) && x in g && x in g[c[|c| - 1]].header.predecessors
    ensures Chain(g, c + [x])
  {
    var d := c + [x];
    forall i | 0 <= i < |d| - 1
      ensures d[i + 1] in g[d[i]].header.predecessors
    {
      if i < |c| - 1 {
        assert c[i + 1] in g[c[i]].header.predecessors;
      }
    }
  }

  /** Every non-genesis vertex lies at or below some tip. */
  lemma {:induction false} BelowSomeTip(s: State, x: ID) returns (c: seq<ID>)
    requires Valid(s) && x in s.vertices && x != GENESIS
    ensures Chain(s.vertices, c) && c[0] in s.tips && c[|c| - 1] == x
    ensures s.vertices[x].round <= s.vertices[c[0]].round
    decreases s.height - s.vertices[x].round
  {
    hide Causal, OnePerRound, WellFormed, Inverse, AllDelivered, TrackingRight;
    var g := s.vertices;
    SuccessorNamesIt(g, x);
    if g[x].successors == [] {
      return [x];
    }
    var y :| y in g && x in g[y].header.predecessors;
    PredecessorRound(g, y, x);
    assert y != GENESIS by { GenesisHasNone(g); }
    var d := BelowSomeTip(s, y);
    ChainAppend(g, d, x);
    c := d + [x];
  }

  lemma GenesisHasNone(g: Graph)
    requires WellFormed(g)
    ensures GENESIS in g && g[GENESIS].header.predecessors == []
  {
  }
}
