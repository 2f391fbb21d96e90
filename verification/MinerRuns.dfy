/** Runs of miners in which a promise fails. */
module MinerRuns {
  import opened Blocklace
  import opened CordialMiners
  import opened MinerHeights

  lemma ReachesNext(start: Net, acts: seq<Action>, net: Net, act: Action)
    requires Reaches(start, acts, net) && Enabled(net, act)
    ensures Reaches(start, acts + [act], Next(net, act))
  {
    hide Enabled, Next;
    assert (acts + [act])[..|acts|] == acts;
  }

  lemma RunBegins(start: Net)
    ensures Reaches(start, [], start)
  {
  }

  /** A step of one miner that leaves it at most one proposal under way. */
  lemma Alone(start: Net, acts: seq<Action>, net: Net, act: Action)
    requires ReachesSequentially(start, acts, net) && Enabled(net, act)
    requires !act.Inject? ==> |Next(net, act).miners[act.miner].drafts| <= 1
    ensures ReachesSequentially(start, acts + [act], Next(net, act))
  {
    hide Next, Enabled;
    assert (acts + [act])[..|acts|] == acts;
    StepMiners(net, act);
    forall r | r in net.miners
      ensures |Next(net, act).miners[r].drafts| <= 1
    {
      if act.Inject? || act.miner != r {
        OthersStay(net, act, r);
      }
    }
  }

  lemma OthersStay(net: Net, act: Action, r: NodeID)
    requires Enabled(net, act) && r in net.miners && (act.Inject? || act.miner != r)
    ensures r in Next(net, act).miners && Next(net, act).miners[r] == net.miners[r]
  {
    hide AddHeader, Own, LastRound;
  }

  /** A run, possibly one without overlapping proposals. */
  ghost predicate RunTo(start: Net, acts: seq<Action>, net: Net, sequential: bool) {
    if sequential then ReachesSequentially(start, acts, net) else Reaches(start, acts, net)
  }

  lemma StepTo(start: Net, acts: seq<Action>, net: Net, act: Action, sequential: bool)
    requires RunTo(start, acts, net, sequential) && Enabled(net, act)
    requires !act.Inject? ==> Next(net, act).miners[act.miner].drafts == net.miners[act.miner].drafts
    ensures RunTo(start, acts + [act], Next(net, act), sequential)
  {
    hide Reaches, Next;
    if sequential {
      Alone(start, acts, net, act);
    } else {
      ReachesNext(start, acts, net, act);
    }
  }

  /** Reading tips and round in a row. */
  lemma DrawAndBuild(start: Net, acts: seq<Action>, net: Net, m: NodeID, tips: seq<ID>)
    returns (acts': seq<Action>, net': Net)
    requires Reaches(start, acts, net) && Enabled(net, TakeTips(m, tips))
    ensures Reaches(start, acts', net')
    ensures var miner := net.miners[m];
      net' == net.(miners := net.miners[m :=
        miner.(drafts := miner.drafts + [Built(tips, Own(miner.dag, m), miner.round)])])
  {
    hide Reaches, Own;
    var miner, mid := net.miners[m], Next(net, TakeTips(m, tips));
    var k, drawn := |miner.drafts|, Drawn(tips, Own(miner.dag, m));
    ReachesNext(start, acts, net, TakeTips(m, tips));
    ReachesNext(start, acts + [TakeTips(m, tips)], mid, ReadRound(m, k));
    acts', net' := acts + [TakeTips(m, tips)] + [ReadRound(m, k)], Next(mid, ReadRound(m, k));
    var built := Built(tips, Own(miner.dag, m), miner.round);
    assert (miner.drafts + [drawn])[k := built] == miner.drafts + [built];
    assert net'.miners == net.miners[m := miner.(drafts := miner.drafts + [built])];
  }

  /** Adding the header of a draft: if it is accepted it is sent. */
  lemma ProposeNext(start: Net, acts: seq<Action>, net: Net, m: NodeID, k: nat, id: ID)
    returns (acts': seq<Action>, net': Net)
    requires Reaches(start, acts, net) && Enabled(net, Propose(m, k, id))
    ensures var d := net.miners[m].drafts[k];
      var (dag, outcome) := AddHeader(net.miners[m].dag, HeaderOf(d, id), m);
      && Reaches(start, acts', net') && m in net'.miners && net'.miners[m].dag == dag
      && (outcome.Accepted? ==>
            && net'.refused == net.refused && net'.sent == net.sent[id := Message(HeaderOf(d, id), m)]
            && net'.miners[m].drafts == net.miners[m].drafts[k := Added(id, d.height)])
  {
    hide Reaches, AddHeader;
    ReachesNext(start, acts, net, Propose(m, k, id));
    acts', net' := acts + [Propose(m, k, id)], Next(net, Propose(m, k, id));
  }

  // -------------------------------------------------------------------------------------------
  // Overlapping proposals of the same round

  lemma NoneOwn(m: NodeID)
    ensures Own(START, m) == {} && START.tips == {} && START.vertices.Keys == {GENESIS}
  {
  }

  /** A miner that begins two proposals before it adds the first flags itself. */
  lemma OverlapFlagsItself(start: Net, m: NodeID, y: ID, z: ID) returns (acts: seq<Action>, net: Net)
    requires Init(start) && m in start.miners && y != GENESIS && z != GENESIS && y != z
    ensures Reaches(start, acts, net) && m in net.miners && m in net.miners[m].dag.byzantine
  {
    hide Reaches, AddHeader, Valid, Next, Own, RoundOf;
    StartValid();
    NoneOwn(m);
    RunBegins(start);
    var d := Built([], {}, 0);
    acts, net := DrawAndBuild(start, [], start, m, []);
    acts, net := DrawAndBuild(start, acts, net, m, []);
    assert net.miners[m].drafts == [d, d];
    OverlapExactly(START, m, d, d, y, z);
    acts, net := ProposeNext(start, acts, net, m, 0, y);
    assert net.miners[m].drafts[1] == d;
    acts, net := ProposeNext(start, acts, net, m, 1, z);
  }

  // -------------------------------------------------------------------------------------------
  // Overlapping proposals of different rounds

  /** The DAG that holds one header without predecessors besides genesis. */
  ghost function WithOne(x: ID, a: NodeID): State {
    AddHeader(START, Header(x, [], 0), a).0
  }

  lemma WithOneMeaning(x: ID, a: NodeID, m: NodeID)
    requires x != GENESIS && a != m
    ensures var s := WithOne(x, a);
      && AddHeader(START, Header(x, [], 0), a).1.Accepted? && Valid(s)
      && s.vertices.Keys == {GENESIS, x} && s.vertices[GENESIS].round == 0 && s.vertices[x].round == 0
      && s.tips == {x} && s.byzantine == {}
      && Own(s, m) == {}
  {
    hide Valid;
    StartValid();
    AddHeaderValid(START, Header(x, [], 0), a);
    InsertExtends(START, Header(x, [], 0), a);
    AddOther(START, Header(x, [], 0), a, m);
  }

  /** A header of somebody outside the protocol is sent, admitted and added. */
  lemma ReceiveOne(start: Net, acts: seq<Action>, net: Net, m: NodeID, a: NodeID, h: Header, sequential: bool)
    returns (acts': seq<Action>, net': Net)
    requires RunTo(start, acts, net, sequential) && m in net.miners && a !in net.miners && Fresh(net, h.id)
    requires net.miners[m].admitted == [] && a !in net.miners[m].dag.byzantine
    requires AddHeader(net.miners[m].dag, h, a).1.Accepted?
    ensures RunTo(start, acts', net', sequential)
    ensures net'.refused == net.refused && net'.sent == net.sent[h.id := Message(h, a)]
    ensures net'.miners == net.miners[m := net.miners[m].(
        dag := AddHeader(net.miners[m].dag, h, a).0, receiving := net.miners[m].receiving + 1)]
  {
    hide RunTo, AddHeader;
    var sent := Next(net, Inject(h, a));
    StepTo(start, acts, net, Inject(h, a), sequential);
    var admitted := Next(sent, Admit(m, h.id));
    StepTo(start, acts + [Inject(h, a)], sent, Admit(m, h.id), sequential);
    assert admitted.miners[m].admitted == [h.id];
    StepTo(start, acts + [Inject(h, a)] + [Admit(m, h.id)], admitted, Receive(m, 0), sequential);
    acts' := acts + [Inject(h, a)] + [Admit(m, h.id)] + [Receive(m, 0)];
    net' := Next(admitted, Receive(m, 0));
    assert Without([h.id], 0) == [];
  }

  /** Two drafts of one miner at the same height: between them it received a header without
      predecessors, which left its round at 0. */
  lemma TwoDrafts(start: Net, m: NodeID, a: NodeID, x: ID) returns (acts: seq<Action>, net: Net)
    requires Init(start) && m in start.miners && a !in start.miners && x != GENESIS
    ensures Reaches(start, acts, net) && net.refused == map[] && net.sent.Keys == {x} && m in net.miners
    ensures net.miners[m].dag == WithOne(x, a) && net.miners[m].drafts == [Built([], {}, 0), Built([x], {}, 0)]
  {
    hide Reaches, AddHeader, Own, Valid, Next;
    WithOneMeaning(x, a, m);
    RunBegins(start);
    NoneOwn(m);
    acts, net := DrawAndBuild(start, [], start, m, []);
    acts, net := ReceiveOne(start, acts, net, m, a, Header(x, [], 0), false);
    acts, net := DrawAndBuild(start, acts, net, m, [x]);
  }

  /** Overlapping proposals can both be accepted and sent, and then repeat a height: one on no tips, and
      one on a header that arrives in between. */
  lemma OverlapRepeatsHeight(start: Net, m: NodeID, a: NodeID, x: ID, y: ID, z: ID)
    returns (acts: seq<Action>, net: Net)
    requires Init(start) && m in start.miners && a !in start.miners
    requires x != GENESIS && y != GENESIS && z != GENESIS && x != y && y != z && x != z
    ensures Reaches(start, acts, net) && SentAlike(net, m, y, z)
    ensures m in net.miners && m !in net.miners[m].dag.byzantine
  {
    hide WithOne, Reaches, AddHeader, Valid, Next;
    WithOneMeaning(x, a, m);
    var s, d, d' := WithOne(x, a), Built([], {}, 0), Built([x], {}, 0);
    acts, net := TwoDrafts(start, m, a, x);
    OverlapExactly(s, m, d, d', y, z);
    acts, net := ProposeNext(start, acts, net, m, 0, y);
    assert net.miners[m].drafts[1] == d';
    acts, net := ProposeNext(start, acts, net, m, 1, z);
  }

  // -------------------------------------------------------------------------------------------
  // A catch-up that writes an old round

  lemma {:induction false} Listing(s: set<ID>) returns (l: seq<ID>)
    ensures |l| == |s| && forall x :: x in l <==> x in s
  {
    l := [];
    if s != {} {
      var x :| x in s;
      var rest := Listing(s - {x});
      l := rest + [x];
    }
  }

  /** The net in which one miner is another. */
  ghost function With(net: Net, m: NodeID, miner: Miner): Net {
    net.(miners := net.miners[m := miner])
  }

  /** A miner without proposals under way begins one. */
  lemma Begin(start: Net, acts: seq<Action>, net: Net, m: NodeID) returns (acts': seq<Action>, net': Net, d: Draft)
    requires ReachesSequentially(start, acts, net) && m in net.miners && net.miners[m].drafts == []
    ensures ReachesSequentially(start, acts', net') && d.Built? && d.height == net.miners[m].round
    ensures net' == With(net, m, net.miners[m].(drafts := [d]))
  {
    hide ReachesSequentially, Own;
    var miner := net.miners[m];
    var tips := Listing(miner.dag.tips);
    Alone(start, acts, net, TakeTips(m, tips));
    var taken := Next(net, TakeTips(m, tips));
    assert taken.miners[m].drafts == [Drawn(tips, Own(miner.dag, m))];
    d := Built(tips, Own(miner.dag, m), miner.round);
    assert [Drawn(tips, Own(miner.dag, m))][0 := d] == [d];
    Alone(start, acts + [TakeTips(m, tips)], taken, ReadRound(m, 0));
    acts', net' := acts + [TakeTips(m, tips)] + [ReadRound(m, 0)], Next(taken, ReadRound(m, 0));
    assert net'.miners == With(net, m, miner.(drafts := [d])).miners;
  }

  /** The last steps of a proposal whose header was added. */
  lemma Finish(start: Net, acts: seq<Action>, net: Net, m: NodeID, id: ID, height: nat)
    returns (acts': seq<Action>, net': Net)
    requires ReachesSequentially(start, acts, net) && m in net.miners && net.miners[m].drafts == [Added(id, height)]
    ensures ReachesSequentially(start, acts', net')
    ensures net' == With(net, m, net.miners[m].(drafts := [], round := net.miners[m].round + 1))
  {
    hide ReachesSequentially;
    var miner := net.miners[m];
    var raising := Raising(id, height, miner.round);
    assert [Added(id, height)][0 := raising] == [raising] && Without([raising], 0) == [];
    Alone(start, acts, net, LoadRound(m, 0));
    var loaded := Next(net, LoadRound(m, 0));
    Alone(start, acts + [LoadRound(m, 0)], loaded, StoreRound(m, 0));
    acts', net' := acts + [LoadRound(m, 0)] + [StoreRound(m, 0)], Next(loaded, StoreRound(m, 0));
    assert net'.miners == With(net, m, miner.(drafts := [], round := miner.round + 1)).miners;
  }

  /** A whole proposal: the header is sent at the miner's round, which rises by one. */
  lemma ProposeOnce(start: Net, acts: seq<Action>, net: Net, m: NodeID, id: ID)
    returns (acts': seq<Action>, net': Net)
    requires Init(start) && ReachesSequentially(start, acts, net) && m in net.miners && net.miners[m].drafts == []
    requires Fresh(net, id)
    ensures ReachesSequentially(start, acts', net') && m in net'.miners && net'.refused == net.refused
    ensures net'.sent.Keys == net.sent.Keys + {id} && SentAt(net', m, net.miners[m].round, id)
    ensures forall x :: x in net.sent ==> net'.sent[x] == net.sent[x]
    ensures net'.miners[m].drafts == [] && net'.miners[m].round == net.miners[m].round + 1
    ensures net'.miners[m].behind == net.miners[m].behind
  {
    hide ReachesSequentially, AddHeader, Own;
    var built, d;
    acts', built, d := Begin(start, acts, net, m);
    ProposalAccepted(start, acts', built, m, id);
    assert [d][0 := Added(id, d.height)] == [Added(id, d.height)];
    Alone(start, acts', built, Propose(m, 0, id));
    acts', net' := Finish(start, acts' + [Propose(m, 0, id)], Next(built, Propose(m, 0, id)), m, id, d.height);
  }

  lemma ProposalAccepted(start: Net, acts: seq<Action>, net: Net, m: NodeID, id: ID)
    requires Init(start) && ReachesSequentially(start, acts, net) && Enabled(net, Propose(m, 0, id))
    ensures AddHeader(net.miners[m].dag, HeaderOf(net.miners[m].drafts[0], id), m).1.Accepted?
  {
    hide ReachesSequentially, AddHeader, Own, RoundOf;
    ProposalsRise(start, acts, net, m, 0, id);
  }

  /** A catch-up that compared before two proposals and writes after them takes the round back, so that
      the next proposal repeats a height, although no two proposals overlap. */
  lemma StaleWriteRepeats(start: Net, acts: seq<Action>, net: Net, m: NodeID, x: ID, y: ID, z: ID)
    returns (acts': seq<Action>, net': Net)
    requires Init(start) && ReachesSequentially(start, acts, net) && m in net.miners && net.miners[m].drafts == []
    requires net.miners[m].behind == [net.miners[m].round + 1]
    requires Fresh(net, x) && Fresh(net, y) && Fresh(net, z) && x != y && y != z && x != z
    ensures ReachesSequentially(start, acts', net') && SentAlike(net', m, y, z)
  {
    hide ReachesSequentially, Init;
    acts', net' := ProposeOnce(start, acts, net, m, x);
    acts', net' := ProposeOnce(start, acts', net', m, y);
    Alone(start, acts', net', WriteRound(m, 0));
    acts', net' := acts' + [WriteRound(m, 0)], Next(net', WriteRound(m, 0));
    acts', net' := ProposeOnce(start, acts', net', m, z);
  }

  lemma WithTwoMeaning(x: ID, y: ID, a: NodeID, m: NodeID)
    requires x != GENESIS && y != GENESIS && x != y && a != m
    ensures var (s, outcome) := AddHeader(WithOne(x, a), Header(y, [x], 0), a);
      outcome.Accepted? && LastRound(s) == 1
  {
    hide WithOne, Valid, AddHeader;
    var s, h := WithOne(x, a), Header(y, [x], 0);
    WithOneMeaning(x, a, m);
    assert AllIn(s.vertices, [x]);
    OneAbove(s.vertices, x);
    hide RoundOf, Insert, Equivocates, Extends;
    NoneAtOne(s, h, a);
    InsertExtends(s, h, a);
    InsertFields(s, h, a);
    AddMeaning(s, h, a);
  }

  lemma OneAbove(g: Graph, x: ID)
    requires x in g && g[x].round == 0
    ensures AllIn(g, [x]) && RoundOf(g, [x]) == 1
  {
    hide MaxRound;
    MaxRoundBounds(g, [x]);
  }

  lemma NoneAtOne(s: State, h: Header, a: NodeID)
    requires AllIn(s.vertices, h.predecessors) && RoundOf(s.vertices, h.predecessors) == 1
    requires forall x :: x in s.vertices ==> s.vertices[x].round == 0
    ensures !Equivocates(s, h, a)
  {
    hide RoundOf;
  }

  lemma AddMeaning(s: State, h: Header, a: NodeID)
    requires h.id !in s.vertices && AllIn(s.vertices, h.predecessors) && !Equivocates(s, h, a)
    ensures AddHeader(s, h, a) == (Insert(s, h, a), Accepted)
  {
  }

  /** A miner that received a header of round 1 compared it with its own round 0 and is about to write. */
  lemma FallBehind(start: Net, m: NodeID, a: NodeID, x: ID, y: ID) returns (acts: seq<Action>, net: Net)
    requires Init(start) && m in start.miners && a !in start.miners && x != GENESIS && y != GENESIS && x != y
    ensures ReachesSequentially(start, acts, net) && m in net.miners && net.sent.Keys == {x, y} && net.refused == map[]
    ensures net.miners[m].drafts == [] && net.miners[m].round == 0 && net.miners[m].behind == [1]
  {
    hide ReachesSequentially, AddHeader, LastRound, Valid, Own;
    WithOneMeaning(x, a, m);
    WithTwoMeaning(x, y, a, m);
    assert ReachesSequentially(start, [], start) by { SequentialBegins(start); }
    acts, net := ReceiveOne(start, [], start, m, a, Header(x, [], 0), true);
    acts, net := ReceiveOne(start, acts, net, m, a, Header(y, [x], 0), true);
    acts, net := ReadAndCompare(start, acts, net, m);
  }

  lemma SequentialBegins(start: Net)
    requires Init(start)
    ensures ReachesSequentially(start, [], start)
  {
  }

  lemma ReadAndCompare(start: Net, acts: seq<Action>, net: Net, m: NodeID) returns (acts': seq<Action>, net': Net)
    requires ReachesSequentially(start, acts, net) && m in net.miners && net.miners[m].receiving > 0
    requires net.miners[m].drafts == [] && net.miners[m].seen == [] && net.miners[m].behind == []
    requires LastRound(net.miners[m].dag) > net.miners[m].round
    ensures ReachesSequentially(start, acts', net') && m in net'.miners
    ensures net'.sent == net.sent && net'.refused == net.refused && net'.miners[m].drafts == []
    ensures net'.miners[m].round == net.miners[m].round && net'.miners[m].behind == [LastRound(net.miners[m].dag)]
  {
    hide ReachesSequentially, LastRound;
    var read := Next(net, ReadSequence(m));
    Alone(start, acts, net, ReadSequence(m));
    assert read.miners[m].seen == [LastRound(net.miners[m].dag)];
    Alone(start, acts + [ReadSequence(m)], read, Compare(m, 0));
    acts', net' := acts + [ReadSequence(m)] + [Compare(m, 0)], Next(read, Compare(m, 0));
  }

  /** Such a run from the start: no two proposals overlap, and two headers have the same height. */
  lemma CatchUpRepeatsHeight(start: Net, m: NodeID, a: NodeID, others: seq<ID>, own: seq<ID>)
    returns (acts: seq<Action>, net: Net)
    requires Init(start) && m in start.miners && a !in start.miners && |others| == 2 && |own| == 3
    requires forall i :: 0 <= i < 5 ==> (others + own)[i] != GENESIS
    requires forall i, j :: 0 <= i < j < 5 ==> (others + own)[i] != (others + own)[j]
    ensures ReachesSequentially(start, acts, net) && SentAlike(net, m, own[1], own[2])
  {
    hide ReachesSequentially;
    var ids := others + own;
    assert ids[0] == others[0] && ids[1] == others[1] && ids[2] == own[0] && ids[3] == own[1] && ids[4] == own[2];
    acts, net := FallBehind(start, m, a, others[0], others[1]);
    acts, net := StaleWriteRepeats(start, acts, net, m, own[0], own[1], own[2]);
  }
}
