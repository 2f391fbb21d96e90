/** Whole runs of the settlement service and the chain VM's escrow under it: fundings, reservations,
    settlements and deals requested from the escrow itself, interleaved in any way with wins, delivery
    proofs and batches of the service. */
module SettlementRuns {
  import opened Numbers
  import opened RealSums
  import opened GoEscrow

  datatype Proof = Proof(
    reservationID: string,
    nonceLength: nat,
    score: real,
    playerSigned: bool,
    cdnSigned: bool,
    timestamp: int)

  /** Fifteen-minute window of a timestamp. */
  datatype Bucket = Bucket(start: int)

  function BucketOf(timestamp: int): Bucket {
    Bucket(timestamp - timestamp % 900)
  }

  predicate ValidProof(p: Proof, now: int) {
    && p.nonceLength >= 32 && p.playerSigned && p.cdnSigned
    && 0.0 <= p.score <= 100.0 && now - p.timestamp <= 300
  }

  type Witnesses = map<Bucket, seq<Proof>>

  function Held(witnesses: Witnesses, bucket: Bucket): seq<Proof> {
    if bucket in witnesses then witnesses[bucket] else []
  }

  /** The proof would be settled if it were tried now; the verification hash has 64 characters. */
  predicate Payable(s: State, proof: Proof, now: int) {
    proof.score >= 70.0 && CanSettle(s, proof.reservationID, 64, now)
  }

  /** The escrow and the service's payout counter. */
  datatype Books = Books(escrow: State, payouts: nat)

  function Tried(b: Books, proof: Proof, now: int): Books {
    if Payable(b.escrow, proof, now) then Books(SettledBy(b.escrow, proof.reservationID, now), b.payouts + 1) else b
  }

  /** The clock readings of a batch: when it tries the proof at each position of a window. */
  type Clock = (Bucket, nat) -> int

  function TriedAll(b: Books, x: Bucket, proofs: seq<Proof>, clock: Clock): Books {
    if proofs == [] then b else
    var n := |proofs| - 1;
    Tried(TriedAll(b, x, proofs[..n], clock), proofs[n], clock(x, n))
  }

  function TriedBuckets(b: Books, witnesses: Witnesses, buckets: seq<Bucket>, clock: Clock): Books {
    if buckets == [] then b else
    var n := |buckets| - 1;
    TriedAll(TriedBuckets(b, witnesses, buckets[..n], clock), buckets[n], Held(witnesses, buckets[n]), clock)
  }

  /** The sequence goes through the set once, in some order. */
  ghost predicate Enumerates(buckets: seq<Bucket>, all: set<Bucket>) {
    && (forall b :: b in buckets <==> b in all)
    && (forall i, j :: 0 <= i < j < |buckets| ==> buckets[i] != buckets[j])
  }

  lemma EnumeratesMore(buckets: seq<Bucket>, all: set<Bucket>, b: Bucket)
    requires Enumerates(buckets, all) && b !in all
    ensures Enumerates(buckets + [b], all + {b})
  {
  }

  /** The buckets are all that hold proofs, each once. */
  ghost predicate Lists(buckets: seq<Bucket>, witnesses: Witnesses) {
    Enumerates(buckets, witnesses.Keys)
  }

  datatype System = System(books: Books, witnesses: Witnesses)

  datatype Call =
    | Fund(id: string, advertiser: string, amount: real, bps: nat)
    | Reserve(r: string, id: string, publisher: string, amount: real, ttl: nat, now: int)
    | Settle(r: string, proofLength: nat, now: int)
    | Guarantee(id: string, dealID: string, publisher: string, impressions: nat, cpm: real, penalty: real)
    | Win(r: string, id: string, publisher: string, price: real, now: int)
    | Prove(proof: Proof, checked: int, now: int)
    | Batch(buckets: seq<Bucket>, clock: Clock)

  function WithEscrow(sys: System, s: State): System {
    sys.(books := sys.books.(escrow := s))
  }

  /** Calls that fail change nothing. The order of a batch is that of a map iteration; a batch that does
      not go through all windows once is not a call. */
  ghost function Next(sys: System, call: Call): System {
    var s := sys.books.escrow;
    match call
    case Fund(id, advertiser, amount, bps) =>
      if CanFund(s, id, advertiser, amount, bps) then WithEscrow(sys, Funded(s, id, advertiser, amount, bps)) else sys
    case Reserve(r, id, publisher, amount, ttl, now) =>
      if CanReserve(s, r, id, amount, ttl)
      then WithEscrow(sys, ReservedBy(s, r, id, publisher, amount, now + ttl)) else sys
    case Settle(r, proofLength, now) =>
      if CanSettle(s, r, proofLength, now) then WithEscrow(sys, SettledBy(s, r, now)) else sys
    case Guarantee(id, dealID, publisher, impressions, cpm, penalty) =>
      var deal := Deal(dealID, publisher, DealEscrow(impressions, cpm, penalty));
      if CanDeal(s, id, deal.escrowAmount) then WithEscrow(sys, DealtBy(s, id, deal)) else sys
    case Win(r, id, publisher, price, now) =>
      if CanReserve(s, r, id, price, 2)
      then WithEscrow(sys, ReservedBy(s, r, id, publisher, price, now + 2)) else sys
    case Prove(proof, checked, now) =>
      if !ValidProof(proof, checked) then sys else
      var b := BucketOf(proof.timestamp);
      var held := Held(sys.witnesses, b);
      System(if held != [] then Tried(sys.books, proof, now) else sys.books, sys.witnesses[b := held + [proof]])
    case Batch(buckets, clock) =>
      if !Lists(buckets, sys.witnesses) then sys else
      System(TriedBuckets(sys.books, sys.witnesses, buckets, clock), map[])
  }

  function Start(ledger: map<string, real>): System {
    System(Books(Opening(ledger), 0), map[])
  }

  /** The system after these calls. */
  ghost function After(ledger: map<string, real>, calls: seq<Call>): System {
    if calls == [] then Start(ledger) else Next(After(ledger, calls[..|calls| - 1]), calls[|calls| - 1])
  }

  // -------------------------------------------------------------------------------------------
  // What settling proofs does

  /** The same reservations, with possibly more of them settled and paid. */
  ghost predicate Later(s: State, t: State) {
    && t.reservations.Keys == s.reservations.Keys && s.paid <= t.paid
    && (forall r :: r in s.reservations ==> t.reservations[r].expires == s.reservations[r].expires)
    && t.campaigns.Keys == s.campaigns.Keys && t.ledger == s.ledger
    && (forall c :: c in s.campaigns ==>
          t.campaigns[c].total == s.campaigns[c].total && t.campaigns[c].deals == s.campaigns[c].deals)
  }

  /** Settling keeps the escrow in order and counts as one payment each. */
  ghost predicate Settles(b: Books, c: Books) {
    && Later(b.escrow, c.escrow) && Valid(c.escrow) && Unbacked(c.escrow) == Unbacked(b.escrow)
    && c.payouts - b.payouts == |c.escrow.paid| - |b.escrow.paid|
  }

  lemma SettlesTrans(a: Books, b: Books, c: Books)
    requires Settles(a, b) && Settles(b, c)
    ensures Settles(a, c)
  {
    hide Valid, Unbacked;
  }

  lemma SettledLater(s: State, r: string, now: int)
    requires r in s.reservations && s.reservations[r].campaign in s.campaigns
    ensures Later(s, SettledBy(s, r, now))
  {
    hide Holdback;
  }

  lemma CampaignKnown(s: State, r: string)
    requires Valid(s) && r in s.reservations
    ensures s.reservations[r].campaign in s.campaigns
  {
    hide BudgetsRight, SpendingRight;
  }

  lemma TriedSettles(b: Books, proof: Proof, now: int)
    requires Valid(b.escrow)
    ensures Settles(b, Tried(b, proof, now))
  {
    hide Valid, Unbacked, SettledBy;
    if Payable(b.escrow, proof, now) {
      CampaignKnown(b.escrow, proof.reservationID);
      SettleKeeps(b.escrow, proof.reservationID, 64, now);
      SettledLater(b.escrow, proof.reservationID, now);
      SettledPays(b.escrow, proof.reservationID, now);
    }
  }

  lemma SettledPays(s: State, r: string, now: int)
    requires r in s.reservations
    ensures SettledBy(s, r, now).paid == s.paid + [r]
  {
    hide Holdback;
  }

  lemma PaidIsSettled(s: State, r: string)
    requires Valid(s)
    ensures r in s.paid <==> r in s.reservations && s.reservations[r].settled
  {
    hide BudgetsRight, SpendingRight;
  }

  /** A proof is payable later exactly if it was before and its reservation has not been paid since. */
  lemma PayableLater(s: State, t: State, proof: Proof, now: int)
    requires Valid(s) && Valid(t) && Later(s, t)
    ensures Payable(t, proof, now) <==> Payable(s, proof, now) && proof.reservationID !in t.paid
  {
    hide Valid;
    PaidIsSettled(s, proof.reservationID);
    PaidIsSettled(t, proof.reservationID);
  }

  /** Among the proofs of the window is one that entitled the reservation to payment in this state. */
  predicate Proven(r: string, x: Bucket, proofs: seq<Proof>, s: State, clock: Clock) {
    exists k :: 0 <= k < |proofs| && proofs[k].reservationID == r && Payable(s, proofs[k], clock(x, k))
  }

  lemma ProvenAppend(r: string, x: Bucket, proofs: seq<Proof>, p: Proof, s: State, clock: Clock)
    ensures Proven(r, x, proofs + [p], s, clock) <==>
      Proven(r, x, proofs, s, clock) || (p.reservationID == r && Payable(s, p, clock(x, |proofs|)))
  {
    hide Payable;
    var q := proofs + [p];
    if Proven(r, x, proofs, s, clock) {
      var k :| 0 <= k < |proofs| && proofs[k].reservationID == r && Payable(s, proofs[k], clock(x, k));
      assert q[k].reservationID == r && Payable(s, q[k], clock(x, k));
    }
    if p.reservationID == r && Payable(s, p, clock(x, |proofs|)) {
      assert q[|proofs|] == p;
    }
  }

  lemma TriedPays(b: Books, proof: Proof, now: int, r: string)
    requires Valid(b.escrow)
    ensures r in Tried(b, proof, now).escrow.paid <==>
      r in b.escrow.paid || (r == proof.reservationID && Payable(b.escrow, proof, now))
  {
    hide Valid, SettledBy;
    if Payable(b.escrow, proof, now) {
      SettledPays(b.escrow, proof.reservationID, now);
    }
  }

  /** However often a reservation occurs among the proofs, it is paid exactly if one of them entitled it
      to payment at the start. */
  lemma {:induction false} TriedAllPays(b: Books, x: Bucket, proofs: seq<Proof>, clock: Clock, r: string)
    requires Valid(b.escrow)
    ensures Settles(b, TriedAll(b, x, proofs, clock))
    ensures r in TriedAll(b, x, proofs, clock).escrow.paid <==>
      r in b.escrow.paid || Proven(r, x, proofs, b.escrow, clock)
    decreases |proofs|
  {
    hide Valid, Unbacked, Later, Tried, Payable;
    if proofs != [] {
      var n := |proofs| - 1;
      var mid, now := TriedAll(b, x, proofs[..n], clock), clock(x, n);
      TriedAllPays(b, x, proofs[..n], clock, r);
      TriedSettles(mid, proofs[n], now);
      SettlesTrans(b, mid, Tried(mid, proofs[n], now));
      TriedPays(mid, proofs[n], now, r);
      PayableLater(b.escrow, mid.escrow, proofs[n], now);
      assert proofs == proofs[..n] + [proofs[n]];
      ProvenAppend(r, x, proofs[..n], proofs[n], b.escrow, clock);
    } else {
      SettlesNothing(b);
    }
  }

  lemma SettlesNothing(b: Books)
    requires Valid(b.escrow)
    ensures Settles(b, b)
  {
    hide Valid, Unbacked;
  }

  lemma ProvenLater(r: string, x: Bucket, proofs: seq<Proof>, s: State, t: State, clock: Clock)
    requires Valid(s) && Valid(t) && Later(s, t) && r !in t.paid
    ensures Proven(r, x, proofs, t, clock) <==> Proven(r, x, proofs, s, clock)
  {
    hide Valid, Later, Payable;
    forall k | 0 <= k < |proofs| && proofs[k].reservationID == r
      ensures Payable(t, proofs[k], clock(x, k)) <==> Payable(s, proofs[k], clock(x, k))
    {
      PayableLater(s, t, proofs[k], clock(x, k));
    }
  }

  /** A batch pays exactly what a proof in one of its windows entitled to payment when it was tried, in
      whatever order it goes through the windows. */
  lemma {:induction false} TriedBucketsPays(
      b: Books, witnesses: Witnesses, buckets: seq<Bucket>, clock: Clock, r: string)
    requires Valid(b.escrow)
    ensures Settles(b, TriedBuckets(b, witnesses, buckets, clock))
    ensures r in TriedBuckets(b, witnesses, buckets, clock).escrow.paid <==>
      r in b.escrow.paid || exists x :: x in buckets && Proven(r, x, Held(witnesses, x), b.escrow, clock)
    decreases |buckets|
  {
    hide Valid, Unbacked, Later, TriedAll, Proven;
    if buckets == [] {
      SettlesNothing(b);
    } else {
      var n := |buckets| - 1;
      var mid, x := TriedBuckets(b, witnesses, buckets[..n], clock), buckets[n];
      var proofs := Held(witnesses, x);
      TriedBucketsPays(b, witnesses, buckets[..n], clock, r);
      TriedAllPays(mid, x, proofs, clock, r);
      SettlesTrans(b, mid, TriedAll(mid, x, proofs, clock));
      if r !in mid.escrow.paid {
        ProvenLater(r, x, proofs, b.escrow, mid.escrow, clock);
      }
      assert forall x :: x in buckets <==> x in buckets[..n] || x == buckets[n];
    }
  }

  // -------------------------------------------------------------------------------------------
  // Single calls

  /** The call pays this reservation: it names it, or is a batch over a window with a proof that does,
      and the reservation is open. */
  ghost predicate Pays(sys: System, call: Call, r: string) {
    var s := sys.books.escrow;
    match call
    case Settle(x, proofLength, now) => x == r && CanSettle(s, r, proofLength, now)
    case Prove(proof, checked, now) =>
      && ValidProof(proof, checked) && Held(sys.witnesses, BucketOf(proof.timestamp)) != []
      && proof.reservationID == r && Payable(s, proof, now)
    case Batch(buckets, clock) =>
      Lists(buckets, sys.witnesses) && exists b :: b in sys.witnesses && Proven(r, b, sys.witnesses[b], s, clock)
    case _ => false
  }

  /** A settlement requested from the escrow itself, behind the service's back. */
  predicate Direct(sys: System, call: Call) {
    call.Settle? && CanSettle(sys.books.escrow, call.r, call.proofLength, call.now)
  }

  /** A campaign funded from the escrow account. */
  predicate SelfFunding(sys: System, call: Call) {
    && call.Fund? && call.advertiser == ESCROW
    && CanFund(sys.books.escrow, call.id, call.advertiser, call.amount, call.bps)
  }

  /** What a call adds to the total of a campaign. */
  function Funding(sys: System, call: Call, id: string): real {
    if call.Fund? && call.id == id && CanFund(sys.books.escrow, id, call.advertiser, call.amount, call.bps)
    then call.amount else 0.0
  }

  /** What a call locks in a guaranteed deal of a campaign. */
  function Guaranteeing(sys: System, call: Call, id: string): real {
    if call.Guarantee? && call.id == id
       && CanDeal(sys.books.escrow, id, DealEscrow(call.impressions, call.cpm, call.penalty))
    then DealEscrow(call.impressions, call.cpm, call.penalty) else 0.0
  }

  /** What every call does to the quantities that the theorems are about. */
  ghost predicate StepRight(sys: System, call: Call, sys': System) {
    var s, t := sys.books.escrow, sys'.books.escrow;
    && Valid(t) && s.paid <= t.paid
    && |t.paid| - |s.paid| == sys'.books.payouts - sys.books.payouts + (if Direct(sys, call) then 1 else 0)
    && Unbacked(t) == Unbacked(s) + (if SelfFunding(sys, call) then call.amount else 0.0)
    && (forall id :: CampaignAt(t, id).total == CampaignAt(s, id).total + Funding(sys, call, id))
    && (forall id :: DealsTotal(CampaignAt(t, id).deals)
                     == DealsTotal(CampaignAt(s, id).deals) + Guaranteeing(sys, call, id))
  }

  lemma FundStep(sys: System, call: Call)
    requires Valid(sys.books.escrow) && call.Fund?
    ensures StepRight(sys, call, Next(sys, call))
  {
    hide Valid, Unbacked, DealsTotal, Transferred, CanTransfer;
    if CanFund(sys.books.escrow, call.id, call.advertiser, call.amount, call.bps) {
      FundKeeps(sys.books.escrow, call.id, call.advertiser, call.amount, call.bps);
      assert DealsTotal([]) == 0.0 by { NoDeals(); }
    }
  }

  lemma NoDeals()
    ensures DealsTotal([]) == 0.0
  {
  }

  lemma ReserveStep(sys: System, call: Call)
    requires Valid(sys.books.escrow) && (call.Reserve? || call.Win?)
    ensures StepRight(sys, call, Next(sys, call))
  {
    hide Valid, Unbacked, DealsTotal;
    var s := sys.books.escrow;
    if call.Reserve? && CanReserve(s, call.r, call.id, call.amount, call.ttl) {
      ReserveKeeps(s, call.r, call.id, call.publisher, call.amount, call.ttl, call.now + call.ttl);
    } else if call.Win? && CanReserve(s, call.r, call.id, call.price, 2) {
      ReserveKeeps(s, call.r, call.id, call.publisher, call.price, 2, call.now + 2);
    }
  }

  lemma GuaranteeStep(sys: System, call: Call)
    requires Valid(sys.books.escrow) && call.Guarantee?
    ensures StepRight(sys, call, Next(sys, call))
  {
    hide Valid, Unbacked, DealsTotal, DealEscrow;
    var s := sys.books.escrow;
    var deal := Deal(call.dealID, call.publisher, DealEscrow(call.impressions, call.cpm, call.penalty));
    if CanDeal(s, call.id, deal.escrowAmount) {
      DealKeeps(s, call.id, deal);
      DealsAppend(s.campaigns[call.id].deals, deal);
    }
  }

  /** Steps that only settle, apart from the counter for direct settlements. */
  lemma SettlingStep(sys: System, call: Call, sys': System)
    requires (call.Prove? || call.Batch?) && Settles(sys.books, sys'.books)
    ensures StepRight(sys, call, sys')
  {
    hide Valid, Unbacked, DealsTotal;
  }

  lemma SettleStep(sys: System, call: Call)
    requires Valid(sys.books.escrow) && call.Settle?
    ensures StepRight(sys, call, Next(sys, call))
  {
    hide Valid, Unbacked, DealsTotal, SettledBy, CanSettle;
    var s := sys.books.escrow;
    if CanSettle(s, call.r, call.proofLength, call.now) {
      CanSettleKnown(s, call.r, call.proofLength, call.now);
      CampaignKnown(s, call.r);
      SettleKeeps(s, call.r, call.proofLength, call.now);
      SettledLater(s, call.r, call.now);
      SettledPays(s, call.r, call.now);
    }
  }

  lemma CanSettleKnown(s: State, r: string, proofLength: nat, now: int)
    requires CanSettle(s, r, proofLength, now)
    ensures r in s.reservations
  {
  }

  lemma ServiceStep(sys: System, call: Call)
    requires Valid(sys.books.escrow) && (call.Prove? || call.Batch?)
    ensures StepRight(sys, call, Next(sys, call))
  {
    hide Valid, Settles, Tried, TriedBuckets, StepRight, Lists, ValidProof;
    SettlesNothing(sys.books);
    if call.Prove? {
      TriedSettles(sys.books, call.proof, call.now);
    } else {
      TriedBucketsPays(sys.books, sys.witnesses, call.buckets, call.clock, "");
    }
    SettlingStep(sys, call, Next(sys, call));
  }

  lemma Step(sys: System, call: Call)
    requires Valid(sys.books.escrow)
    ensures StepRight(sys, call, Next(sys, call))
  {
    hide Valid, StepRight, Next;
    match call
    case Fund(_, _, _, _) => FundStep(sys, call);
    case Settle(_, _, _) => SettleStep(sys, call);
    case Guarantee(_, _, _, _, _, _) => GuaranteeStep(sys, call);
    case Prove(_, _, _) => ServiceStep(sys, call);
    case Batch(_, _) => ServiceStep(sys, call);
    case _ => ReserveStep(sys, call);
  }

  /** A reservation is paid after a call exactly if it was before or the call pays it. */
  lemma StepPays(sys: System, call: Call, r: string)
    requires Valid(sys.books.escrow)
    ensures r in Next(sys, call).books.escrow.paid <==> r in sys.books.escrow.paid || Pays(sys, call, r)
    ensures Pays(sys, call, r) ==> r !in sys.books.escrow.paid
  {
    hide Valid, TriedBuckets, Tried, Lists, ValidProof, SettledBy, DealEscrow, Transferred;
    var s := sys.books.escrow;
    PaidIsSettled(s, r);
    match call
    case Settle(x, proofLength, now) =>
      if CanSettle(s, x, proofLength, now) {
        SettledPays(s, x, now);
      }
    case Prove(proof, checked, now) => TriedPays(sys.books, proof, now, r);
    case Batch(buckets, clock) => BatchPays(sys, buckets, clock, r);
    case _ =>
  }

  lemma BatchPays(sys: System, buckets: seq<Bucket>, clock: Clock, r: string)
    requires Valid(sys.books.escrow)
    ensures r in Next(sys, Batch(buckets, clock)).books.escrow.paid <==>
      r in sys.books.escrow.paid || Pays(sys, Batch(buckets, clock), r)
    ensures Pays(sys, Batch(buckets, clock), r) ==> r !in sys.books.escrow.paid
  {
    hide Valid, TriedBuckets, Payable;
    var s := sys.books.escrow;
    TriedBucketsPays(sys.books, sys.witnesses, buckets, clock, r);
    if b :| b in sys.witnesses && Proven(r, b, sys.witnesses[b], s, clock) {
      var k :| 0 <= k < |sys.witnesses[b]| && sys.witnesses[b][k].reservationID == r
               && Payable(s, sys.witnesses[b][k], clock(b, k));
      PayableUnpaid(s, sys.witnesses[b][k], clock(b, k));
    }
    assert forall b :: b in sys.witnesses ==> Held(sys.witnesses, b) == sys.witnesses[b];
  }

  lemma PayableUnpaid(s: State, proof: Proof, now: int)
    requires Valid(s) && Payable(s, proof, now)
    ensures proof.reservationID !in s.paid
  {
    hide Valid;
    PaidIsSettled(s, proof.reservationID);
  }

  // -------------------------------------------------------------------------------------------
  // Whole runs

  /** Accepted settlements requested from the escrow itself. */
  ghost function DirectIn(ledger: map<string, real>, calls: seq<Call>): nat {
    if calls == [] then 0 else
    var n := |calls| - 1;
    DirectIn(ledger, calls[..n]) + if Direct(After(ledger, calls[..n]), calls[n]) then 1 else 0
  }

  /** What the escrow account put into campaigns of its own. */
  ghost function SelfFundedIn(ledger: map<string, real>, calls: seq<Call>): real {
    if calls == [] then 0.0 else
    var n := |calls| - 1;
    SelfFundedIn(ledger, calls[..n]) + if SelfFunding(After(ledger, calls[..n]), calls[n]) then calls[n].amount else 0.0
  }

  /** All that was accepted as funding of a campaign. */
  ghost function FundedIn(ledger: map<string, real>, calls: seq<Call>, id: string): real {
    if calls == [] then 0.0 else
    var n := |calls| - 1;
    FundedIn(ledger, calls[..n], id) + Funding(After(ledger, calls[..n]), calls[n], id)
  }

  /** The escrow of all deals accepted for a campaign. */
  ghost function GuaranteedIn(ledger: map<string, real>, calls: seq<Call>, id: string): real {
    if calls == [] then 0.0 else
    var n := |calls| - 1;
    GuaranteedIn(ledger, calls[..n], id) + Guaranteeing(After(ledger, calls[..n]), calls[n], id)
  }

  /** The run as a whole: what the counters and totals are made of. */
  ghost predicate RunRight(ledger: map<string, real>, calls: seq<Call>) {
    var sys := After(ledger, calls);
    var s := sys.books.escrow;
    && Valid(s) && |s.paid| == sys.books.payouts + DirectIn(ledger, calls)
    && Unbacked(s) == SelfFundedIn(ledger, calls) - Get(ledger, ESCROW)
    && (forall id :: CampaignAt(s, id).total == FundedIn(ledger, calls, id))
    && (forall id :: DealsTotal(CampaignAt(s, id).deals) == GuaranteedIn(ledger, calls, id))
  }

  lemma {:induction false} Run(ledger: map<string, real>, calls: seq<Call>)
    requires Nonnegative(ledger)
    ensures RunRight(ledger, calls)
    decreases |calls|
  {
    hide Valid, Unbacked, Next, Direct, SelfFunding, Funding, Guaranteeing, DealsTotal;
    if calls == [] {
      StartValid(ledger);
      NoDeals();
    } else {
      var n := |calls| - 1;
      Run(ledger, calls[..n]);
      Step(After(ledger, calls[..n]), calls[n]);
    }
  }

  /** Over every run: each campaign's accepted fundings are available, reserved, spent or in the escrow
      of its accepted deals; the reserved part is its unsettled reservations; all spending is in
      publisher balances and pending releases; nothing but a deal's escrow is negative. */
  lemma RunBudgets(ledger: map<string, real>, calls: seq<Call>)
    requires Nonnegative(ledger)
    ensures var s := After(ledger, calls).books.escrow;
      && (forall id :: id in s.campaigns ==>
            var c := s.campaigns[id];
            && FundedIn(ledger, calls, id) == c.total
            && c.total == c.available + c.reserved + c.spent + GuaranteedIn(ledger, calls, id)
            && c.available >= 0.0 && c.reserved >= 0.0 && c.spent >= 0.0
            && c.reserved == Sum(Pending(s.reservations, id)))
      && Sum(Spent(s.campaigns)) == Sum(s.publisherBalances) + ReleasesTotal(s.releases)
      && Nonnegative(s.publisherBalances)
  {
    hide Sum, After, Pending, Spent, DealsTotal, Unbacked, PaidRight;
    Run(ledger, calls);
    var s := After(ledger, calls).books.escrow;
    forall id | id in s.campaigns
      ensures FundedIn(ledger, calls, id) == s.campaigns[id].total && BudgetRight(s.campaigns[id])
      ensures DealsTotal(s.campaigns[id].deals) == GuaranteedIn(ledger, calls, id)
      ensures s.campaigns[id].reserved == Sum(Pending(s.reservations, id))
    {
      assert CampaignAt(s, id) == s.campaigns[id];
      assert CampaignAt(s, id).reserved == Sum(Pending(s.reservations, id));
    }
  }

  /** Over every run, a campaign has more in use than was ever paid into it if and only if the escrow of
      its accepted deals adds up to less than zero. */
  lemma WithinTotal(ledger: map<string, real>, calls: seq<Call>, id: string)
    requires Nonnegative(ledger) && id in After(ledger, calls).books.escrow.campaigns
    ensures var c := After(ledger, calls).books.escrow.campaigns[id];
      c.available + c.reserved + c.spent > FundedIn(ledger, calls, id) <==> GuaranteedIn(ledger, calls, id) < 0.0
  {
    hide After, Sum, Pending, Spent;
    RunBudgets(ledger, calls);
  }

  /** Call `i` of the run is an accepted funding from the escrow account. */
  ghost predicate SelfFundingAt(ledger: map<string, real>, calls: seq<Call>, i: int) {
    0 <= i < |calls| && SelfFunding(After(ledger, calls[..i]), calls[i])
  }

  lemma {:induction false} SelfFundedSign(ledger: map<string, real>, calls: seq<Call>)
    ensures SelfFundedIn(ledger, calls) >= 0.0
    ensures SelfFundedIn(ledger, calls) > 0.0 <==> exists i :: SelfFundingAt(ledger, calls, i)
    decreases |calls|
  {
    hide After;
    if calls != [] {
      var n := |calls| - 1;
      SelfFundedSign(ledger, calls[..n]);
      forall i | 0 <= i < n
        ensures SelfFundingAt(ledger, calls[..n], i) <==> SelfFundingAt(ledger, calls, i)
      {
        assert calls[..n][..i] == calls[..i];
      }
      assert SelfFundingAt(ledger, calls, n) <==> SelfFunding(After(ledger, calls[..n]), calls[n]);
      if i :| SelfFundingAt(ledger, calls, i) {
        assert i == n || SelfFundingAt(ledger, calls[..n], i);
      }
    }
  }

  /** Over every run, the escrow account gained the sum of all campaign totals if and only if no accepted
      funding came from the escrow account itself; otherwise it gained less. */
  lemma BackedByAUSD(ledger: map<string, real>, calls: seq<Call>)
    requires Nonnegative(ledger)
    ensures var s := After(ledger, calls).books.escrow;
      var gain, totals := Get(s.ledger, ESCROW) - Get(ledger, ESCROW), Sum(Totals(s.campaigns));
      && gain <= totals
      && (gain == totals <==> !exists i :: SelfFundingAt(ledger, calls, i))
  {
    hide After, Sum, Totals, Valid, SelfFundedIn, SelfFundingAt;
    Run(ledger, calls);
    SelfFundedSign(ledger, calls);
  }

  /** Call `i` of the run pays the reservation. */
  ghost predicate PaysAt(ledger: map<string, real>, calls: seq<Call>, i: int, r: string) {
    0 <= i < |calls| && Pays(After(ledger, calls[..i]), calls[i], r)
  }

  lemma {:induction false} PaidByCalls(ledger: map<string, real>, calls: seq<Call>, r: string)
    requires Nonnegative(ledger)
    ensures r in After(ledger, calls).books.escrow.paid <==> exists i :: PaysAt(ledger, calls, i, r)
    ensures forall i, j :: PaysAt(ledger, calls, i, r) && PaysAt(ledger, calls, j, r) ==> i == j
    decreases |calls|
  {
    hide Next, Pays, Valid;
    if calls != [] {
      var n := |calls| - 1;
      PaidByCalls(ledger, calls[..n], r);
      Run(ledger, calls[..n]);
      StepPays(After(ledger, calls[..n]), calls[n], r);
      forall i | 0 <= i < n
        ensures PaysAt(ledger, calls[..n], i, r) <==> PaysAt(ledger, calls, i, r)
      {
        assert calls[..n][..i] == calls[..i];
      }
      assert PaysAt(ledger, calls, n, r) <==> Pays(After(ledger, calls[..n]), calls[n], r);
      if i :| PaysAt(ledger, calls, i, r) {
        assert i == n || PaysAt(ledger, calls[..n], i, r);
      }
    }
  }

  lemma {:induction false} DistinctCount(s: seq<string>, x: string)
    requires forall i, j :: 0 <= i < j < |s| ==> s[i] != s[j]
    ensures multiset(s)[x] == if x in s then 1 else 0
    decreases |s|
  {
    if s != [] {
      var n := |s| - 1;
      assert s == s[..n] + [s[n]];
      DistinctCount(s[..n], x);
    }
  }

  /** Over every run, under any interleaving of wins, proofs, batches and calls to the escrow itself, a
      reservation is paid at most once, by exactly one call if at all: a settlement or a proof that names
      it, or a batch that holds a proof naming it. */
  lemma PaidAtMostOnce(ledger: map<string, real>, calls: seq<Call>, r: string)
    requires Nonnegative(ledger)
    ensures multiset(After(ledger, calls).books.escrow.paid)[r]
         == if exists i :: PaysAt(ledger, calls, i, r) then 1 else 0
    ensures forall i, j :: PaysAt(ledger, calls, i, r) && PaysAt(ledger, calls, j, r) ==> i == j
  {
    hide After, BudgetsRight, SpendingRight, Unbacked, PaysAt;
    Run(ledger, calls);
    PaidByCalls(ledger, calls, r);
    DistinctCount(After(ledger, calls).books.escrow.paid, r);
  }

  ghost function SettledReservations(s: State): set<string> {
    set r | r in s.reservations && s.reservations[r].settled
  }

  lemma {:induction false} DistinctSize(s: seq<string>, elements: set<string>)
    requires forall i, j :: 0 <= i < j < |s| ==> s[i] != s[j]
    requires forall x :: x in s <==> x in elements
    ensures |elements| == |s|
    decreases |s|
  {
    if s != [] {
      var n := |s| - 1;
      assert s == s[..n] + [s[n]];
      DistinctSize(s[..n], elements - {s[n]});
    }
  }

  /** Over every run, the payout counter counts the settled reservations, apart from the ones settled by
      accepted calls to the escrow itself. */
  lemma PayoutsCountSettled(ledger: map<string, real>, calls: seq<Call>)
    requires Nonnegative(ledger)
    ensures var sys := After(ledger, calls);
      sys.books.payouts == |SettledReservations(sys.books.escrow)| - DirectIn(ledger, calls)
  {
    hide After, BudgetsRight, SpendingRight, Unbacked;
    Run(ledger, calls);
    var s := After(ledger, calls).books.escrow;
    DistinctSize(s.paid, SettledReservations(s));
  }

  // -------------------------------------------------------------------------------------------
  // Proofs held by the service

  /** A valid proof with this content was submitted. */
  ghost predicate Submitted(calls: seq<Call>, proof: Proof) {
    exists i :: 0 <= i < |calls| && calls[i].Prove? && calls[i].proof == proof && ValidProof(proof, calls[i].checked)
  }

  lemma SubmittedLasts(calls: seq<Call>, call: Call, proof: Proof)
    requires Submitted(calls, proof)
    ensures Submitted(calls + [call], proof)
  {
    var i :| 0 <= i < |calls| && calls[i].Prove? && calls[i].proof == proof && ValidProof(proof, calls[i].checked);
    assert (calls + [call])[i] == calls[i];
  }

  /** Every proof held was submitted in the run and lies in the window of its timestamp; no window is
      kept without proofs. */
  ghost predicate HeldRight(calls: seq<Call>, witnesses: Witnesses) {
    forall b :: b in witnesses ==> witnesses[b] != [] && HeldIn(calls, b, witnesses[b])
  }

  ghost predicate HeldIn(calls: seq<Call>, b: Bucket, proofs: seq<Proof>) {
    forall p :: p in proofs ==> BucketOf(p.timestamp) == b && Submitted(calls, p)
  }

  lemma HeldLasts(calls: seq<Call>, call: Call, b: Bucket, proofs: seq<Proof>)
    requires HeldIn(calls, b, proofs)
    ensures HeldIn(calls + [call], b, proofs)
  {
    hide Submitted;
    forall p | p in proofs
      ensures Submitted(calls + [call], p)
    {
      SubmittedLasts(calls, call, p);
    }
  }

  lemma {:induction false} RunHeld(ledger: map<string, real>, calls: seq<Call>)
    ensures HeldRight(calls, After(ledger, calls).witnesses)
    decreases |calls|
  {
    hide HeldIn;
    if calls != [] {
      var n := |calls| - 1;
      var sys, call := After(ledger, calls[..n]), calls[n];
      RunHeld(ledger, calls[..n]);
      assert calls == calls[..n] + [call];
      forall b | b in sys.witnesses
        ensures HeldIn(calls, b, sys.witnesses[b])
      {
        HeldLasts(calls[..n], call, b, sys.witnesses[b]);
      }
      NextHeld(sys, calls[..n], call);
    }
  }

  lemma NextHeld(sys: System, calls: seq<Call>, call: Call)
    requires forall b :: b in sys.witnesses ==> sys.witnesses[b] != [] && HeldIn(calls + [call], b, sys.witnesses[b])
    ensures HeldRight(calls + [call], Next(sys, call).witnesses)
  {
    hide Tried, TriedBuckets, Lists, ValidProof, Submitted, DealEscrow, Funded, ReservedBy, SettledBy, DealtBy;
    hide CanFund, CanReserve, CanSettle, CanDeal;
    if call.Prove? && ValidProof(call.proof, call.checked) {
      assert Submitted(calls + [call], call.proof) by { SubmittedNow(calls, call); }
    }
  }

  lemma SubmittedNow(calls: seq<Call>, call: Call)
    requires call.Prove? && ValidProof(call.proof, call.checked)
    ensures Submitted(calls + [call], call.proof)
  {
    assert (calls + [call])[|calls|] == call;
  }

  /** The run asks for payment of this reservation: by a settlement, or by a valid proof of sufficient
      viewability. */
  ghost predicate Requested(calls: seq<Call>, r: string) {
    || (exists i :: 0 <= i < |calls| && calls[i].Settle? && calls[i].r == r && calls[i].proofLength >= 32)
    || (exists p :: Submitted(calls, p) && p.reservationID == r && p.score >= 70.0)
  }

  /** Over every run, nothing is paid that was not asked for. */
  lemma PaidOnRequest(ledger: map<string, real>, calls: seq<Call>, r: string)
    requires Nonnegative(ledger) && r in After(ledger, calls).books.escrow.paid
    ensures Requested(calls, r)
  {
    hide After, Submitted, ValidProof, HeldRight;
    PaidByCalls(ledger, calls, r);
    var i :| PaysAt(ledger, calls, i, r);
    var sys := After(ledger, calls[..i]);
    RunHeld(ledger, calls[..i]);
    match calls[i]
    case Settle(_, _, _) =>
    case Prove(proof, checked, now) =>
      SubmittedIn(calls, i);
    case Batch(_, clock) =>
      var b :| b in sys.witnesses && Proven(r, b, sys.witnesses[b], sys.books.escrow, clock);
      var k :| 0 <= k < |sys.witnesses[b]| && sys.witnesses[b][k].reservationID == r
               && Payable(sys.books.escrow, sys.witnesses[b][k], clock(b, k));
      HeldSubmitted(calls, i, sys.witnesses, b, k);
  }

  lemma SubmittedIn(calls: seq<Call>, i: nat)
    requires i < |calls| && calls[i].Prove? && ValidProof(calls[i].proof, calls[i].checked)
    ensures Submitted(calls, calls[i].proof)
  {
  }

  lemma HeldSubmitted(calls: seq<Call>, i: nat, witnesses: Witnesses, b: Bucket, k: nat)
    requires i <= |calls| && HeldRight(calls[..i], witnesses) && b in witnesses && k < |witnesses[b]|
    ensures Submitted(calls, witnesses[b][k])
  {
    var p := witnesses[b][k];
    assert p in witnesses[b] && HeldIn(calls[..i], b, witnesses[b]);
    var j :| 0 <= j < i && calls[..i][j].Prove? && calls[..i][j].proof == p && ValidProof(p, calls[..i][j].checked);
    assert calls[..i][j] == calls[j];
  }

  // -------------------------------------------------------------------------------------------
  // Runs in which a promise fails

  lemma AfterOne(ledger: map<string, real>, call: Call)
    ensures After(ledger, [call]) == Next(Start(ledger), call)
  {
    assert [call][..0] == [];
  }

  lemma AfterMore(ledger: map<string, real>, calls: seq<Call>, call: Call)
    ensures After(ledger, calls + [call]) == Next(After(ledger, calls), call)
  {
    assert (calls + [call])[..|calls|] == calls;
  }

  /** A deal for 2^63 impressions raises the available budget above all that was paid in. */
  lemma DealExceedsFunding()
    ensures var ledger := map["a" := 1.0];
      var calls := [Fund("c", "a", 1.0, 0), Guarantee("c", "d", "p", TWO_TO_THE_63, 1.0, 0.0)];
      var s := After(ledger, calls).books.escrow;
      && "c" in s.campaigns && FundedIn(ledger, calls, "c") == 1.0
      && s.campaigns["c"].available > FundedIn(ledger, calls, "c")
  {
    hide DealEscrow;
    var ledger, fund := map["a" := 1.0], Fund("c", "a", 1.0, 0);
    var deal := Guarantee("c", "d", "p", TWO_TO_THE_63, 1.0, 0.0);
    HugeDealIsNegative();
    AfterOne(ledger, fund);
    AfterMore(ledger, [fund], deal);
    assert [fund] + [deal] == [fund, deal];
    assert [fund][..0] == [] && [fund, deal][..1] == [fund];
    assert FundedIn(ledger, [fund], "c") == 1.0;
  }

  /** The escrow account can fund a campaign of its own, which no new AUSD backs. */
  lemma EscrowFundsItself()
    ensures var ledger, calls := map[ESCROW := 1.0], [Fund("c", ESCROW, 1.0, 0)];
      && SelfFundingAt(ledger, calls, 0) && Get(After(ledger, calls).books.escrow.ledger, ESCROW) == 1.0
      && "c" in After(ledger, calls).books.escrow.campaigns
      && After(ledger, calls).books.escrow.campaigns["c"].total == 1.0
  {
    var ledger, fund := map[ESCROW := 1.0], Fund("c", ESCROW, 1.0, 0);
    AfterOne(ledger, fund);
    assert [fund][..0] == [];
  }

  /** A reservation settled by the escrow itself is settled, but not counted as a payout. */
  lemma DirectSettlementIsNotCounted()
    ensures var sys := After(map["a" := 1.0],
        [Fund("c", "a", 1.0, 0), Reserve("r", "c", "p", 1.0, 1, 0), Settle("r", 32, 0)]);
      && "r" in SettledReservations(sys.books.escrow) && sys.books.payouts == 0
  {
    var ledger, fund, reserve := map["a" := 1.0], Fund("c", "a", 1.0, 0), Reserve("r", "c", "p", 1.0, 1, 0);
    var settle := Settle("r", 32, 0);
    AfterOne(ledger, fund);
    AfterMore(ledger, [fund], reserve);
    AfterMore(ledger, [fund, reserve], settle);
    assert [fund] + [reserve] == [fund, reserve] && [fund, reserve] + [settle] == [fund, reserve, settle];
  }
}
