/** The heights that miners give their headers. A height is the miner's round at the time the header is
    built, and the round is read and written without a lock. */
module MinerHeights {
  import opened Blocklace
  import opened CordialMiners

  /** Two headers that the miner sent at the same height. */
  predicate SentAlike(net: Net, m: NodeID, x: ID, y: ID) {
    && x in net.sent && y in net.sent && net.sent[x].author == m && net.sent[y].author == m
    && net.sent[x].header.height == net.sent[y].header.height
  }

  ghost predicate Repeated(net: Net, m: NodeID) {
    exists x, y :: x != y && SentAlike(net, m, x, y)
  }

  // -------------------------------------------------------------------------------------------
  // When a height is repeated

  predicate SentAt(net: Net, m: NodeID, height: nat, x: ID) {
    x in net.sent && net.sent[x].author == m && net.sent[x].header.height == height
  }

  /** The step is an accepted proposal of the miner at a height at which it sent a header before. */
  ghost predicate RepeatingStep(net: Net, act: Action, m: NodeID) {
    && Enabled(net, act) && act.Propose? && act.miner == m
    && Proposed(net.miners[m], act.k, act.id, m).1.Accepted?
    && exists x :: SentAt(net, m, net.miners[m].drafts[act.k].height, x)
  }

  ghost function Repeating(m: NodeID): StepKind {
    (net, act) => RepeatingStep(net, act, m)
  }

  /** What was sent under the miner's name before and after a step. */
  lemma SentStep(net: Net, act: Action, m: NodeID, x: ID)
    requires Enabled(net, act) && m in net.miners
    ensures var own := act.Propose? && act.miner == m && Proposed(net.miners[m], act.k, act.id, m).1.Accepted?;
      && (x in net.sent ==> x in Next(net, act).sent && Next(net, act).sent[x] == net.sent[x])
      && (x in Next(net, act).sent && Next(net, act).sent[x].author == m && x !in net.sent ==> own && x == act.id)
      && (own ==> act.id !in net.sent && act.id in Next(net, act).sent
                  && Next(net, act).sent[act.id] == Message(HeaderOf(net.miners[m].drafts[act.k], act.id), m))
  {
    hide AddHeader, LastRound, Own;
  }

  lemma RepeatStep(net: Net, act: Action, m: NodeID)
    requires Enabled(net, act) && m in net.miners
    ensures Repeated(Next(net, act), m) <==> Repeated(net, m) || RepeatingStep(net, act, m)
  {
    hide Next, Proposed;
    var net' := Next(net, act);
    forall x
      ensures x in net.sent ==> x in net'.sent && net'.sent[x] == net.sent[x]
    {
      SentStep(net, act, m, x);
    }
    if Repeated(net', m) {
      var x, y :| x != y && SentAlike(net', m, x, y);
      SentStep(net, act, m, x);
      SentStep(net, act, m, y);
      if x in net.sent && y in net.sent {
        assert SentAlike(net, m, x, y);
      } else {
        assert SentAt(net, m, net.miners[m].drafts[act.k].height, if x in net.sent then x else y);
      }
    }
    if Repeated(net, m) {
      var x, y :| x != y && SentAlike(net, m, x, y);
      assert SentAlike(net', m, x, y);
    }
    if RepeatingStep(net, act, m) {
      var x :| SentAt(net, m, net.miners[m].drafts[act.k].height, x);
      SentStep(net, act, m, x);
      assert SentAlike(net', m, x, act.id);
    }
  }

  /** In every run, two headers of a miner share a height if and only if some accepted proposal of the
      miner has the height of a header that it had sent before. */
  lemma {:induction false} HeightRepeatsExactly(start: Net, acts: seq<Action>, net: Net, m: NodeID)
    requires Init(start) && Reaches(start, acts, net) && m in start.miners
    ensures Repeated(net, m) <==> HappensIn(start, acts, Repeating(m))
    decreases |acts|
  {
    hide Inv, Next, Enabled, HappensIn, RepeatingStep, Repeated;
    if acts == [] {
      HappensNowhere(start, Repeating(m));
      assert !Repeated(start, m) by { NothingRepeated(start, m); }
    } else {
      var n := |acts| - 1;
      var mid :| Reaches(start, acts[..n], mid) && Enabled(mid, acts[n]) && net == Next(mid, acts[n]);
      RunInv(start, acts[..n], mid);
      HeightRepeatsExactly(start, acts[..n], mid, m);
      RepeatStep(mid, acts[n], m);
      HappensSplit(start, acts, mid, Repeating(m));
    }
  }

  lemma NothingRepeated(net: Net, m: NodeID)
    requires net.sent == map[]
    ensures !Repeated(net, m)
  {
  }

  // -------------------------------------------------------------------------------------------
  // What repeated heights come from

  /** A proposal that read the round for its header at this height and is still under way. */
  predicate UnderWay(drafts: seq<Draft>, i: int, height: nat) {
    0 <= i < |drafts| && !drafts[i].Drawn? && drafts[i].height == height
  }

  predicate BuiltAt(drafts: seq<Draft>, i: int, height: nat) {
    UnderWay(drafts, i, height) && drafts[i].Built?
  }

  /** The step builds a header at this height while another proposal of that height is under way. */
  ghost predicate OverlappingStep(net: Net, act: Action, m: NodeID, height: nat) {
    && Enabled(net, act) && act.ReadRound? && act.miner == m && net.miners[m].round == height
    && exists i :: UnderWay(net.miners[m].drafts, i, height)
  }

  ghost function Overlapping(m: NodeID, height: nat): StepKind {
    (net, act) => OverlappingStep(net, act, m, height)
  }

  /** The step lowers the miner's round, from this height or above to it or below. */
  ghost predicate LoweringStep(net: Net, act: Action, m: NodeID, height: nat) {
    && Enabled(net, act) && m in net.miners
    && Next(net, act).miners[m].round <= height <= net.miners[m].round
    && Next(net, act).miners[m].round < net.miners[m].round
  }

  ghost function Lowering(m: NodeID, height: nat): StepKind {
    (net, act) => LoweringStep(net, act, m, height)
  }

  ghost function SentIDs(net: Net, m: NodeID, height: nat): set<ID> {
    set x | x in net.sent && SentAt(net, m, height, x)
  }

  /** At most one header is at this height, sent or built; once it is sent its proposal is under way or the
      round is above it. Proposals under way at this height were built, and the round loaded, at or below
      the round. */
  ghost predicate Lone(sent: set<ID>, drafts: seq<Draft>, round: nat, height: nat) {
    && (forall x, y :: x in sent && y in sent ==> x == y)
    && (forall i, j :: BuiltAt(drafts, i, height) && BuiltAt(drafts, j, height) ==> i == j)
    && (sent != {} ==> round > height || exists i :: UnderWay(drafts, i, height))
    && (forall i :: UnderWay(drafts, i, height) ==>
          && height <= round && (drafts[i].Raising? ==> height <= drafts[i].loaded)
          && (drafts[i].Built? ==> sent == {}))
  }

  ghost predicate LoneIn(net: Net, m: NodeID, height: nat)
    requires m in net.miners
  {
    Lone(SentIDs(net, m, height), net.miners[m].drafts, net.miners[m].round, height)
  }

  lemma LoneTake(sent: set<ID>, drafts: seq<Draft>, round: nat, height: nat, d: Draft)
    requires Lone(sent, drafts, round, height) && d.Drawn?
    ensures Lone(sent, drafts + [d], round, height)
  {
    if i :| UnderWay(drafts, i, height) {
      assert UnderWay(drafts + [d], i, height);
    }
    assert forall i :: UnderWay(drafts + [d], i, height) ==> UnderWay(drafts, i, height);
    assert forall i :: BuiltAt(drafts + [d], i, height) ==> BuiltAt(drafts, i, height);
  }

  lemma LoneRead(sent: set<ID>, drafts: seq<Draft>, round: nat, height: nat, k: nat)
    requires Lone(sent, drafts, round, height) && k < |drafts| && drafts[k].Drawn?
    requires round == height ==> !exists i :: UnderWay(drafts, i, height)
    ensures Lone(sent, drafts[k := Built(drafts[k].tips, drafts[k].own, round)], round, height)
  {
    var drafts' := drafts[k := Built(drafts[k].tips, drafts[k].own, round)];
    assert forall i :: i != k ==> (UnderWay(drafts', i, height) <==> UnderWay(drafts, i, height));
    assert forall i :: i != k && BuiltAt(drafts', i, height) ==> BuiltAt(drafts, i, height);
    assert forall i :: BuiltAt(drafts, i, height) ==> UnderWay(drafts, i, height);
    assert BuiltAt(drafts', k, height) <==> round == height;
    if i :| UnderWay(drafts, i, height) {
      assert UnderWay(drafts', i, height);
    }
  }

  lemma LoneAdd(sent: set<ID>, drafts: seq<Draft>, round: nat, height: nat, k: nat, id: ID)
    requires Lone(sent, drafts, round, height) && k < |drafts| && drafts[k].Built?
    ensures Lone(if drafts[k].height == height then sent + {id} else sent,
                 drafts[k := Added(id, drafts[k].height)], round, height)
  {
    var drafts' := drafts[k := Added(id, drafts[k].height)];
    assert forall i :: UnderWay(drafts', i, height) <==> UnderWay(drafts, i, height);
    assert forall i :: BuiltAt(drafts', i, height) ==> BuiltAt(drafts, i, height) && i != k;
    if drafts[k].height == height {
      assert BuiltAt(drafts, k, height) && UnderWay(drafts', k, height);
      assert sent == {};
    }
    forall i | UnderWay(drafts', i, height) && drafts'[i].Built?
      ensures drafts[k].height != height && sent == {}
    {
      assert BuiltAt(drafts', i, height) && UnderWay(drafts, i, height);
    }
  }

  lemma LoneLoad(sent: set<ID>, drafts: seq<Draft>, round: nat, height: nat, k: nat)
    requires Lone(sent, drafts, round, height) && k < |drafts| && drafts[k].Added?
    ensures Lone(sent, drafts[k := Raising(drafts[k].id, drafts[k].height, round)], round, height)
  {
    var drafts' := drafts[k := Raising(drafts[k].id, drafts[k].height, round)];
    assert forall i :: UnderWay(drafts', i, height) <==> UnderWay(drafts, i, height);
    assert forall i :: BuiltAt(drafts', i, height) ==> BuiltAt(drafts, i, height);
  }

  /** Position in `s` of what is at position `i` without `s[k]`. */
  function Shifted(k: nat, i: int): int {
    if i < k then i else i + 1
  }

  lemma WithoutUnderWay(drafts: seq<Draft>, k: nat, height: nat)
    requires k < |drafts|
    ensures forall i :: 0 <= i < |drafts| - 1 ==> Without(drafts, k)[i] == drafts[Shifted(k, i)]
    ensures forall i :: UnderWay(Without(drafts, k), i, height) ==> UnderWay(drafts, Shifted(k, i), height)
    ensures (exists i :: i != k && UnderWay(drafts, i, height)) ==> exists i :: UnderWay(Without(drafts, k), i, height)
  {
    if i :| i != k && UnderWay(drafts, i, height) {
      assert UnderWay(Without(drafts, k), if i < k then i else i - 1, height);
    }
  }

  /** A draft that is refused leaves, or one at another height ends without lowering the round to this
      height. */
  lemma LoneDrop(sent: set<ID>, drafts: seq<Draft>, round: nat, height: nat, k: nat, round': nat)
    requires Lone(sent, drafts, round, height) && k < |drafts|
    requires round <= round' || height < round' || round < height
    requires UnderWay(drafts, k, height) && !drafts[k].Built? ==> height < round'
    ensures Lone(sent, Without(drafts, k), round', height)
  {
    hide Without;
    WithoutUnderWay(drafts, k, height);
    var drafts' := Without(drafts, k);
    forall i, j | BuiltAt(drafts', i, height) && BuiltAt(drafts', j, height)
      ensures i == j
    {
      assert BuiltAt(drafts, Shifted(k, i), height) && BuiltAt(drafts, Shifted(k, j), height);
    }
  }

  lemma LoneWrite(sent: set<ID>, drafts: seq<Draft>, round: nat, height: nat, round': nat)
    requires Lone(sent, drafts, round, height)
    requires round <= round' || height < round' || round < height
    ensures Lone(sent, drafts, round', height)
  {
  }

  /** The headers sent at a height change by accepted proposals of the miner at that height only. */
  lemma SentIDsStep(net: Net, act: Action, m: NodeID, height: nat)
    requires Enabled(net, act) && m in net.miners
    ensures SentIDs(Next(net, act), m, height)
         == if act.Propose? && act.miner == m && Proposed(net.miners[m], act.k, act.id, m).1.Accepted?
               && net.miners[m].drafts[act.k].height == height
            then SentIDs(net, m, height) + {act.id} else SentIDs(net, m, height)
  {
    hide Next, Proposed;
    forall x
      ensures x in SentIDs(Next(net, act), m, height) <==>
        || x in SentIDs(net, m, height)
        || (act.Propose? && act.miner == m && Proposed(net.miners[m], act.k, act.id, m).1.Accepted?
            && net.miners[m].drafts[act.k].height == height && x == act.id)
    {
      SentStep(net, act, m, x);
    }
  }

  lemma LoneStep(net: Net, act: Action, m: NodeID, height: nat)
    requires Enabled(net, act) && m in net.miners && LoneIn(net, m, height)
    requires !OverlappingStep(net, act, m, height) && !LoweringStep(net, act, m, height)
    ensures m in Next(net, act).miners && LoneIn(Next(net, act), m, height)
  {
    hide Lone, SentIDs, AddHeader, Own, LastRound, Without;
    var miner, sent := net.miners[m], SentIDs(net, m, height);
    var drafts, round := miner.drafts, miner.round;
    SentIDsStep(net, act, m, height);
    if !act.Inject? && act.miner == m {
      match act
      case TakeTips(_, tips) => LoneTake(sent, drafts, round, height, Drawn(tips, Own(miner.dag, m)));
      case ReadRound(_, k) => LoneRead(sent, drafts, round, height, k);
      case Propose(_, k, id) =>
        LoneAdd(sent, drafts, round, height, k, id);
        LoneDrop(sent, drafts, round, height, k, round);
      case LoadRound(_, k) => LoneLoad(sent, drafts, round, height, k);
      case StoreRound(_, k) =>
        LoneLoaded(sent, drafts, round, height, k);
        LoneDrop(sent, drafts, round, height, k, drafts[k].loaded + 1);
      case WriteRound(_, k) => LoneWrite(sent, drafts, round, height, miner.behind[k]);
      case _ =>
    }
  }

  lemma LoneLoaded(sent: set<ID>, drafts: seq<Draft>, round: nat, height: nat, k: nat)
    requires Lone(sent, drafts, round, height) && k < |drafts| && drafts[k].Raising?
    ensures UnderWay(drafts, k, height) ==> height < drafts[k].loaded + 1
  {
  }

  lemma {:induction false} LoneRun(start: Net, acts: seq<Action>, net: Net, m: NodeID, height: nat)
    requires Init(start) && Reaches(start, acts, net) && m in start.miners
    requires !HappensIn(start, acts, Overlapping(m, height)) && !HappensIn(start, acts, Lowering(m, height))
    ensures m in net.miners && LoneIn(net, m, height)
    decreases |acts|
  {
    hide Next, Enabled, HappensIn, OverlappingStep, LoweringStep;
    if acts != [] {
      hide LoneIn;
      var n := |acts| - 1;
      var mid :| Reaches(start, acts[..n], mid) && Enabled(mid, acts[n]) && net == Next(mid, acts[n]);
      HappensSplit(start, acts, mid, Overlapping(m, height));
      HappensSplit(start, acts, mid, Lowering(m, height));
      LoneRun(start, acts[..n], mid, m, height);
      LoneStep(mid, acts[n], m, height);
    }
  }

  /** In every run, where two headers of a miner share a height, either the second was built while the
      proposal of the first was under way and the round had not moved on, or some write lowered the round
      to that height or below. */
  lemma HeightRepeatCause(start: Net, acts: seq<Action>, net: Net, m: NodeID, x: ID, y: ID)
    requires Init(start) && Reaches(start, acts, net) && m in start.miners
    requires x != y && SentAlike(net, m, x, y)
    ensures var height := net.sent[x].header.height;
      HappensIn(start, acts, Overlapping(m, height)) || HappensIn(start, acts, Lowering(m, height))
  {
    hide Reaches, HappensIn;
    var height := net.sent[x].header.height;
    assert x in SentIDs(net, m, height) && y in SentIDs(net, m, height);
    if !HappensIn(start, acts, Overlapping(m, height)) && !HappensIn(start, acts, Lowering(m, height)) {
      LoneRun(start, acts, net, m, height);
    }
  }

  // -------------------------------------------------------------------------------------------
  // Miners that do one thing at a time

  /** No miner has two proposals under way, or a proposal and a pending write of a round it fell behind,
      or two such writes. */
  ghost predicate Quiet(net: Net) {
    forall m :: m in net.miners ==> |net.miners[m].drafts| + |net.miners[m].behind| <= 1
  }

  ghost predicate ReachesQuietly(start: Net, acts: seq<Action>, net: Net) {
    Quiet(net) &&
    if acts == [] then net == start else
    var n := |acts| - 1;
    exists mid :: ReachesQuietly(start, acts[..n], mid) && Enabled(mid, acts[n]) && net == Next(mid, acts[n])
  }

  /** What is about to be written is above the round. */
  ghost predicate Ahead(m: Miner) {
    && (forall i :: 0 <= i < |m.behind| ==> m.behind[i] > m.round)
    && (forall i :: 0 <= i < |m.drafts| && m.drafts[i].Raising? ==> m.drafts[i].loaded == m.round)
  }

  lemma AheadCounters(m: Miner, k: nat)
    requires Ahead(m) && |m.drafts| + |m.behind| <= 1
    ensures k < |m.drafts| && m.drafts[k].Raising? ==> Ahead(Stored(m, k)) && Stored(m, k).round > m.round
    ensures k < |m.behind| ==> Ahead(Written(m, k)) && Written(m, k).round > m.round
    ensures k < |m.seen| ==> Ahead(Compared(m, k))
    ensures k < |m.drafts| && m.drafts[k].Added? ==> Ahead(Loaded(m, k))
  {
  }

  lemma AheadDrafts(m: Miner, m': Miner)
    requires Ahead(m) && m'.round == m.round && m'.behind == m.behind
    requires forall i :: 0 <= i < |m'.drafts| && m'.drafts[i].Raising? ==> m'.drafts[i] in m.drafts
    ensures Ahead(m')
  {
  }

  lemma QuietStep(net: Net, act: Action, m: NodeID, height: nat)
    requires Enabled(net, act) && m in net.miners && Ahead(net.miners[m])
    requires |net.miners[m].drafts| + |net.miners[m].behind| <= 1
    ensures m in Next(net, act).miners && Ahead(Next(net, act).miners[m])
    ensures !OverlappingStep(net, act, m, height) && !LoweringStep(net, act, m, height)
  {
    hide AddHeader, LastRound, Own, Ahead;
    var miner, miner' := net.miners[m], Next(net, act).miners[m];
    if act.StoreRound? || act.WriteRound? || act.Compare? || act.LoadRound? {
      AheadCounters(miner, act.k);
    } else {
      AheadDrafts(miner, miner');
    }
  }

  lemma {:induction false} QuietRun(start: Net, acts: seq<Action>, net: Net, m: NodeID, height: nat)
    requires Init(start) && ReachesQuietly(start, acts, net) && m in start.miners
    ensures Reaches(start, acts, net) && m in net.miners && Ahead(net.miners[m])
    ensures !HappensIn(start, acts, Overlapping(m, height)) && !HappensIn(start, acts, Lowering(m, height))
    decreases |acts|
  {
    hide Next, Enabled, HappensIn, OverlappingStep, LoweringStep, Ahead;
    if acts == [] {
      HappensNowhere(start, Overlapping(m, height));
      HappensNowhere(start, Lowering(m, height));
      assert Ahead(Idle(START, 0)) by { IdleAhead(); }
    } else {
      var n := |acts| - 1;
      var mid :| ReachesQuietly(start, acts[..n], mid) && Enabled(mid, acts[n]) && net == Next(mid, acts[n]);
      QuietRun(start, acts[..n], mid, m, height);
      QuietStep(mid, acts[n], m, height);
      HappensSplit(start, acts, mid, Overlapping(m, height));
      HappensSplit(start, acts, mid, Lowering(m, height));
    }
  }

  lemma IdleAhead()
    ensures Ahead(Idle(START, 0))
  {
  }

  /** In every run in which miners do one thing at a time, no miner gives two of its headers the same
      height. */
  lemma HeightsNeverRepeat(start: Net, acts: seq<Action>, net: Net, m: NodeID)
    requires Init(start) && ReachesQuietly(start, acts, net) && m in start.miners
    ensures !Repeated(net, m)
  {
    hide Reaches, ReachesQuietly, HappensIn, Ahead;
    forall x, y | SentAlike(net, m, x, y)
      ensures x == y
    {
      var height := net.sent[x].header.height;
      QuietRun(start, acts, net, m, height);
      LoneRun(start, acts, net, m, height);
      assert x in SentIDs(net, m, height) && y in SentIDs(net, m, height);
    }
  }
}
