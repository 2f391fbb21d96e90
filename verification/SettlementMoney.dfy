/** Whose money the chain VM's escrow moves, over every run of the settlement service and the escrow
    under it: campaigns answer to who funded them first, reservations are what a call asked for, and
    publishers get what was settled for them. */
module SettlementMoney {
  import opened RealSums
  import opened GoEscrow
  import opened SettlementRuns

  // -------------------------------------------------------------------------------------------
  // What settling leaves alone

  function Unsettled(v: Reservation): Reservation {
    v.(settled := false)
  }

  /** The same reservations apart from being settled, the same terms of campaigns, and the same ledger. */
  ghost predicate SameTerms(s: State, t: State) {
    && t.reservations.Keys == s.reservations.Keys && t.campaigns.Keys == s.campaigns.Keys && t.ledger == s.ledger
    && (forall r :: r in s.reservations ==> Unsettled(t.reservations[r]) == Unsettled(s.reservations[r]))
    && (forall c :: c in s.campaigns ==> SameCampaign(s.campaigns[c], t.campaigns[c]))
  }

  predicate SameCampaign(c: Campaign, d: Campaign) {
    c.advertiser == d.advertiser && c.holdbackBps == d.holdbackBps && c.active == d.active
  }

  /** What one release is worth to a publisher. */
  function ReleaseTo(release: PendingRelease, publisher: string): real {
    if release.publisher == publisher then release.amount else 0.0
  }

  function ReleasesTo(releases: seq<PendingRelease>, publisher: string): real {
    if releases == [] then 0.0 else
    ReleasesTo(releases[..|releases| - 1], publisher) + ReleaseTo(releases[|releases| - 1], publisher)
  }

  function EarnedAmount(v: Reservation, publisher: string): real {
    if v.settled && v.publisher == publisher then v.amount else 0.0
  }

  /** What each settled reservation earned the publisher. */
  ghost function Earned(reservations: map<string, Reservation>, publisher: string): map<string, real> {
    map r | r in reservations :: EarnedAmount(reservations[r], publisher)
  }

  /** Every publisher has, as a balance or as releases to come, what was settled for it. */
  ghost predicate EarningsRight(s: State) {
    forall p :: Get(s.publisherBalances, p) + ReleasesTo(s.releases, p) == Sum(Earned(s.reservations, p))
  }

  /** A step that settles and does nothing else. */
  ghost predicate OnlySettles(s: State, t: State) {
    SameTerms(s, t) && (EarningsRight(s) ==> EarningsRight(t))
  }

  lemma OnlySettlesTrans(s: State, t: State, u: State)
    requires OnlySettles(s, t) && OnlySettles(t, u)
    ensures OnlySettles(s, u)
  {
    hide EarningsRight;
  }

  lemma OnlySettlesNothing(s: State)
    ensures OnlySettles(s, s)
  {
    hide EarningsRight;
  }

  lemma EarnedUpdate(reservations: map<string, Reservation>, r: string, v: Reservation, p: string)
    ensures Sum(Earned(reservations[r := v], p)) == Sum(Earned(reservations, p))
      - (if r in reservations then EarnedAmount(reservations[r], p) else 0.0) + EarnedAmount(v, p)
  {
    assert Earned(reservations[r := v], p) == Earned(reservations, p)[r := EarnedAmount(v, p)];
    SumUpdate(Earned(reservations, p), r, EarnedAmount(v, p));
  }

  lemma ReleasesToAppend(releases: seq<PendingRelease>, release: PendingRelease, p: string)
    ensures ReleasesTo(releases + [release], p) == ReleasesTo(releases, p) + ReleaseTo(release, p)
  {
    assert (releases + [release])[..|releases|] == releases;
  }

  lemma SettledEarns(s: State, r: string, now: int, p: string)
    requires r in s.reservations && !s.reservations[r].settled && s.reservations[r].amount > 0.0
    requires 0 <= CampaignAt(s, s.reservations[r].campaign).holdbackBps <= 2000
    ensures var t := SettledBy(s, r, now);
      Get(t.publisherBalances, p) + ReleasesTo(t.releases, p) - Sum(Earned(t.reservations, p))
      == Get(s.publisherBalances, p) + ReleasesTo(s.releases, p) - Sum(Earned(s.reservations, p))
  {
    hide Sum, Earned, ReleasesTo, Holdback;
    var v := s.reservations[r];
    var holdback := Holdback(v.amount, CampaignAt(s, v.campaign).holdbackBps);
    EarnedUpdate(s.reservations, r, v.(settled := true), p);
    ReleasesToAppend(s.releases, PendingRelease(v.publisher, holdback, now + 48 * 3600), p);
    HoldbackBounds(v.amount, CampaignAt(s, v.campaign).holdbackBps);
  }

  lemma SettleOnly(s: State, r: string, proofLength: nat, now: int)
    requires Valid(s) && CanSettle(s, r, proofLength, now)
    ensures OnlySettles(s, SettledBy(s, r, now))
  {
    hide Sum, Pending, Spent, Earned, ReleasesTo, Holdback;
    var v, t := s.reservations[r], SettledBy(s, r, now);
    assert BudgetRight(s.campaigns[v.campaign]);
    if EarningsRight(s) {
      forall p
        ensures Get(t.publisherBalances, p) + ReleasesTo(t.releases, p) == Sum(Earned(t.reservations, p))
      {
        SettledEarns(s, r, now, p);
        assert Get(s.publisherBalances, p) + ReleasesTo(s.releases, p) == Sum(Earned(s.reservations, p));
      }
    }
  }

  lemma TriedOnly(b: Books, proof: Proof, now: int)
    requires Valid(b.escrow)
    ensures OnlySettles(b.escrow, Tried(b, proof, now).escrow)
  {
    hide Valid, OnlySettles, SettledBy, CanSettle;
    if Payable(b.escrow, proof, now) {
      SettleOnly(b.escrow, proof.reservationID, 64, now);
    } else {
      OnlySettlesNothing(b.escrow);
    }
  }

  lemma {:induction false} TriedAllOnly(b: Books, x: Bucket, proofs: seq<Proof>, clock: Clock)
    requires Valid(b.escrow)
    ensures OnlySettles(b.escrow, TriedAll(b, x, proofs, clock).escrow)
    decreases |proofs|
  {
    hide Valid, OnlySettles, Later, Tried, Unbacked;
    if proofs == [] {
      OnlySettlesNothing(b.escrow);
    } else {
      var n := |proofs| - 1;
      var mid := TriedAll(b, x, proofs[..n], clock);
      TriedAllOnly(b, x, proofs[..n], clock);
      TriedAllPays(b, x, proofs[..n], clock, "");
      TriedOnly(mid, proofs[n], clock(x, n));
      OnlySettlesTrans(b.escrow, mid.escrow, Tried(mid, proofs[n], clock(x, n)).escrow);
    }
  }

  lemma {:induction false} TriedBucketsOnly(b: Books, witnesses: Witnesses, buckets: seq<Bucket>, clock: Clock)
    requires Valid(b.escrow)
    ensures OnlySettles(b.escrow, TriedBuckets(b, witnesses, buckets, clock).escrow)
    decreases |buckets|
  {
    hide Valid, OnlySettles, Later, TriedAll, Unbacked, Proven;
    if buckets == [] {
      OnlySettlesNothing(b.escrow);
    } else {
      var n := |buckets| - 1;
      var mid := TriedBuckets(b, witnesses, buckets[..n], clock);
      TriedBucketsOnly(b, witnesses, buckets[..n], clock);
      TriedBucketsPays(b, witnesses, buckets[..n], clock, "");
      TriedAllOnly(mid, buckets[n], Held(witnesses, buckets[n]), clock);
      OnlySettlesTrans(b.escrow, mid.escrow, TriedAll(mid, buckets[n], Held(witnesses, buckets[n]), clock).escrow);
    }
  }

  // -------------------------------------------------------------------------------------------
  // Single calls

  /** The call is an accepted funding of the campaign. */
  predicate Funds(sys: System, call: Call, id: string) {
    call.Fund? && call.id == id && CanFund(sys.books.escrow, id, call.advertiser, call.amount, call.bps)
  }

  /** The call is accepted and makes the reservation: as asked of the escrow, or for a won impression. */
  predicate Reserves(sys: System, call: Call, r: string) {
    || (call.Reserve? && call.r == r && CanReserve(sys.books.escrow, r, call.id, call.amount, call.ttl))
    || (call.Win? && call.r == r && CanReserve(sys.books.escrow, r, call.id, call.price, 2))
  }

  /** The reservation is what the call asked for; a won impression has two seconds, and nothing has more
      than ten. */
  predicate AsAsked(v: Reservation, call: Call) {
    || (call.Reserve? && v.campaign == call.id && v.publisher == call.publisher && v.amount == call.amount
        && v.expires == call.now + call.ttl <= call.now + 10)
    || (call.Win? && v.campaign == call.id && v.publisher == call.publisher && v.amount == call.price
        && v.expires == call.now + 2)
  }

  /** What the call takes from an account of the ledger, and what it puts into it. */
  function Pays(sys: System, call: Call, account: string): real {
    if call.Fund? && call.advertiser == account && Funds(sys, call, call.id) then call.amount else 0.0
  }

  function Gets(sys: System, call: Call, account: string): real {
    if call.Fund? && account == ESCROW && Funds(sys, call, call.id) then call.amount else 0.0
  }

  /** What every call does to campaigns, reservations, earnings and the ledger. */
  ghost predicate MoneyRight(sys: System, call: Call, sys': System) {
    var s, t := sys.books.escrow, sys'.books.escrow;
    && (forall id :: CampaignMoney(sys, call, id, s, t))
    && (forall r :: ReservationMoney(sys, call, r, s, t))
    && (EarningsRight(s) ==> EarningsRight(t))
    && (forall a :: Get(t.ledger, a) == Get(s.ledger, a) - Pays(sys, call, a) + Gets(sys, call, a))
  }

  ghost predicate CampaignMoney(sys: System, call: Call, id: string, s: State, t: State) {
    && (id in t.campaigns <==> id in s.campaigns || Funds(sys, call, id))
    && (id in s.campaigns ==> SameCampaign(s.campaigns[id], t.campaigns[id]))
    && (id in s.campaigns && Funds(sys, call, id) ==> call.advertiser == s.campaigns[id].advertiser)
    && (id !in s.campaigns && id in t.campaigns ==>
          SameCampaign(t.campaigns[id], Campaign(call.advertiser, 0.0, 0.0, 0.0, 0.0, true, call.bps, [])))
  }

  ghost predicate ReservationMoney(sys: System, call: Call, r: string, s: State, t: State) {
    && (r in t.reservations <==> r in s.reservations || Reserves(sys, call, r))
    && (r in s.reservations ==> !Reserves(sys, call, r) && Unsettled(t.reservations[r]) == Unsettled(s.reservations[r]))
    && (Reserves(sys, call, r) ==> AsAsked(t.reservations[r], call))
  }

  lemma SettlingMoney(sys: System, call: Call, sys': System)
    requires !call.Fund? && !call.Reserve? && !call.Win? && OnlySettles(sys.books.escrow, sys'.books.escrow)
    ensures MoneyRight(sys, call, sys')
  {
    hide EarningsRight;
  }

  lemma FundMoney(sys: System, call: Call)
    requires Valid(sys.books.escrow) && call.Fund?
    ensures MoneyRight(sys, call, Next(sys, call))
  {
    hide Sum, Earned, ReleasesTo, BudgetsRight, PaidRight, SpendingRight, Transferred;
    var s := sys.books.escrow;
    if CanFund(s, call.id, call.advertiser, call.amount, call.bps) {
      TransferConserves(s.ledger, call.advertiser, ESCROW, call.amount);
    }
  }

  lemma ReserveMoney(sys: System, call: Call)
    requires call.Reserve? || call.Win?
    ensures MoneyRight(sys, call, Next(sys, call))
  {
    hide EarningsRight;
    var s, t := sys.books.escrow, Next(sys, call).books.escrow;
    if Reserves(sys, call, call.r) {
      ReservedMoney(sys, call);
    }
  }

  lemma ReservedMoney(sys: System, call: Call)
    requires (call.Reserve? || call.Win?) && Reserves(sys, call, call.r)
    ensures MoneyRight(sys, call, Next(sys, call))
  {
    hide EarningsRight;
    var s, t := sys.books.escrow, Next(sys, call).books.escrow;
    assert call.r !in s.reservations && t.reservations == s.reservations[call.r := t.reservations[call.r]];
    if EarningsRight(s) {
      MoreReservations(s, t, call.r);
    }
    forall r
      ensures ReservationMoney(sys, call, r, s, t)
    {
    }
    forall id
      ensures CampaignMoney(sys, call, id, s, t)
    {
    }
  }

  lemma MoreReservations(s: State, t: State, r: string)
    requires EarningsRight(s) && r !in s.reservations && r in t.reservations && !t.reservations[r].settled
    requires t.reservations == s.reservations[r := t.reservations[r]]
    requires t.publisherBalances == s.publisherBalances && t.releases == s.releases
    ensures EarningsRight(t)
  {
    hide Sum, Earned, ReleasesTo;
    forall p
      ensures Get(t.publisherBalances, p) + ReleasesTo(t.releases, p) == Sum(Earned(t.reservations, p))
    {
      EarnedUpdate(s.reservations, r, t.reservations[r], p);
      assert Get(s.publisherBalances, p) + ReleasesTo(s.releases, p) == Sum(Earned(s.reservations, p));
    }
  }

  lemma DealOnly(sys: System, call: Call)
    requires call.Guarantee?
    ensures OnlySettles(sys.books.escrow, Next(sys, call).books.escrow)
  {
    hide Sum, Earned, ReleasesTo, DealEscrow;
  }

  lemma SettleCallOnly(sys: System, call: Call)
    requires Valid(sys.books.escrow) && (call.Settle? || call.Prove? || call.Batch?)
    ensures OnlySettles(sys.books.escrow, Next(sys, call).books.escrow)
  {
    hide Valid, OnlySettles, SettledBy, CanSettle, Tried, TriedBuckets, Lists, ValidProof;
    OnlySettlesNothing(sys.books.escrow);
    match call
    case Settle(r, proofLength, now) =>
      if CanSettle(sys.books.escrow, r, proofLength, now) {
        CanSettleKnown(sys.books.escrow, r, proofLength, now);
        SettleOnly(sys.books.escrow, r, proofLength, now);
      }
    case Prove(proof, _, now) => TriedOnly(sys.books, proof, now);
    case Batch(buckets, clock) => TriedBucketsOnly(sys.books, sys.witnesses, buckets, clock);
  }

  lemma MoneyStep(sys: System, call: Call)
    requires Valid(sys.books.escrow)
    ensures MoneyRight(sys, call, Next(sys, call))
  {
    hide Valid, MoneyRight, OnlySettles, Next;
    if call.Fund? {
      FundMoney(sys, call);
    } else if call.Reserve? || call.Win? {
      ReserveMoney(sys, call);
    } else {
      if call.Guarantee? {
        DealOnly(sys, call);
      } else {
        SettleCallOnly(sys, call);
      }
      SettlingMoney(sys, call, Next(sys, call));
    }
  }

  // -------------------------------------------------------------------------------------------
  // Whole runs

  ghost predicate FundsAt(ledger: map<string, real>, calls: seq<Call>, i: int, id: string) {
    0 <= i < |calls| && Funds(After(ledger, calls[..i]), calls[i], id)
  }

  ghost predicate ReservesAt(ledger: map<string, real>, calls: seq<Call>, i: int, r: string) {
    0 <= i < |calls| && Reserves(After(ledger, calls[..i]), calls[i], r)
  }

  /** All that an account paid into campaigns. */
  ghost function PaidBy(ledger: map<string, real>, calls: seq<Call>, account: string): real {
    if calls == [] then 0.0 else
    var n := |calls| - 1;
    PaidBy(ledger, calls[..n], account) + Pays(After(ledger, calls[..n]), calls[n], account)
  }

  /** All that everybody paid into campaigns, for the escrow account; nothing for any other. */
  ghost function GotBy(ledger: map<string, real>, calls: seq<Call>, account: string): real {
    if calls == [] then 0.0 else
    var n := |calls| - 1;
    GotBy(ledger, calls[..n], account) + Gets(After(ledger, calls[..n]), calls[n], account)
  }

  /** Over every run, a publisher's balance and the releases to come to it add up to the amounts of the
      reservations settled for it; and an account has lost exactly what it paid into campaigns, all of which
      the escrow account got. */
  lemma {:induction false} EarningsAndLedger(ledger: map<string, real>, calls: seq<Call>, account: string)
    requires Nonnegative(ledger)
    ensures var s := After(ledger, calls).books.escrow;
      && EarningsRight(s)
      && Get(s.ledger, account) == Get(ledger, account) - PaidBy(ledger, calls, account) + GotBy(ledger, calls, account)
    decreases |calls|
  {
    hide Next, EarningsRight, Pays, Gets, CampaignMoney, ReservationMoney, Valid, Unbacked;
    if calls == [] {
      NothingEarned(ledger);
    } else {
      var n := |calls| - 1;
      EarningsAndLedger(ledger, calls[..n], account);
      Run(ledger, calls[..n]);
      MoneyStep(After(ledger, calls[..n]), calls[n]);
    }
  }

  lemma NothingEarned(ledger: map<string, real>)
    ensures EarningsRight(Opening(ledger))
  {
    hide Sum;
    SumNone<string>();
    assert forall p :: Earned(map[], p) == map[];
  }

  lemma FundsBefore(ledger: map<string, real>, calls: seq<Call>, id: string)
    requires calls != []
    ensures var n := |calls| - 1;
      forall i :: FundsAt(ledger, calls, i, id) <==>
        FundsAt(ledger, calls[..n], i, id) || (i == n && Funds(After(ledger, calls[..n]), calls[n], id))
    ensures var n := |calls| - 1;
      (exists i :: FundsAt(ledger, calls, i, id)) <==>
        (exists i :: FundsAt(ledger, calls[..n], i, id)) || Funds(After(ledger, calls[..n]), calls[n], id)
  {
    hide After, Funds;
    var n := |calls| - 1;
    forall i | 0 <= i < n
      ensures FundsAt(ledger, calls[..n], i, id) <==> FundsAt(ledger, calls, i, id)
    {
      assert calls[..n][..i] == calls[..i];
    }
    assert FundsAt(ledger, calls, n, id) <==> Funds(After(ledger, calls[..n]), calls[n], id);
  }

  lemma ReservesBefore(ledger: map<string, real>, calls: seq<Call>, r: string)
    requires calls != []
    ensures var n := |calls| - 1;
      forall i :: ReservesAt(ledger, calls, i, r) <==>
        ReservesAt(ledger, calls[..n], i, r) || (i == n && Reserves(After(ledger, calls[..n]), calls[n], r))
  {
    hide After, Reserves;
    var n := |calls| - 1;
    forall i | 0 <= i < n
      ensures ReservesAt(ledger, calls[..n], i, r) <==> ReservesAt(ledger, calls, i, r)
    {
      assert calls[..n][..i] == calls[..i];
    }
  }

  lemma LastStep(ledger: map<string, real>, calls: seq<Call>, id: string, r: string)
    requires Nonnegative(ledger) && calls != []
    ensures var sys, call := After(ledger, calls[..|calls| - 1]), calls[|calls| - 1];
      var s, t := sys.books.escrow, After(ledger, calls).books.escrow;
      CampaignMoney(sys, call, id, s, t) && ReservationMoney(sys, call, r, s, t)
  {
    hide Next, EarningsRight, Pays, Gets, CampaignMoney, ReservationMoney, Valid, Unbacked;
    var n := |calls| - 1;
    Run(ledger, calls[..n]);
    MoneyStep(After(ledger, calls[..n]), calls[n]);
  }

  /** Over every run, a reservation is on record exactly if some call made it, which no other call did; and
      it names the campaign, the publisher, the amount and the time that this call asked for. */
  lemma {:induction false} ReservationIsTheCall(ledger: map<string, real>, calls: seq<Call>, r: string)
    requires Nonnegative(ledger)
    ensures var s := After(ledger, calls).books.escrow;
      && (r in s.reservations <==> exists i :: ReservesAt(ledger, calls, i, r))
      && (forall i, j :: ReservesAt(ledger, calls, i, r) && ReservesAt(ledger, calls, j, r) ==> i == j)
      && (forall i :: ReservesAt(ledger, calls, i, r) ==> r in s.reservations && AsAsked(s.reservations[r], calls[i]))
    decreases |calls|
  {
    if calls != [] {
      var n := |calls| - 1;
      ReservationIsTheCall(ledger, calls[..n], r);
      ReservesBefore(ledger, calls, r);
      LastStep(ledger, calls, "", r);
      hide After, Reserves, CampaignMoney, ReservesAt, AsAsked;
      assert forall v, w, call :: Unsettled(v) == Unsettled(w) && AsAsked(v, call) ==> AsAsked(w, call)
        by { AskedUnsettled(); }
      assert forall i :: ReservesAt(ledger, calls[..n], i, r) ==> 0 <= i < n && calls[..n][i] == calls[i]
        by { ReservesInRange(ledger, calls[..n], r); }
    }
  }

  lemma AskedUnsettled()
    ensures forall v, w, call :: Unsettled(v) == Unsettled(w) && AsAsked(v, call) ==> AsAsked(w, call)
  {
  }

  lemma ReservesInRange(ledger: map<string, real>, calls: seq<Call>, r: string)
    ensures forall i :: ReservesAt(ledger, calls, i, r) ==> 0 <= i < |calls|
  {
    hide After, Reserves;
  }

  lemma FundsInRange(ledger: map<string, real>, calls: seq<Call>, id: string)
    ensures forall i :: FundsAt(ledger, calls, i, id) ==> 0 <= i < |calls|
  {
    hide After, Funds;
  }

  /** Over every run, a campaign exists exactly if some accepted call funded it. Every such call names the
      same advertiser, the campaign's, and the campaign is active for good. */
  lemma {:induction false} CampaignIsTheFunders(ledger: map<string, real>, calls: seq<Call>, id: string)
    requires Nonnegative(ledger)
    ensures var s := After(ledger, calls).books.escrow;
      && (id in s.campaigns <==> exists i :: FundsAt(ledger, calls, i, id))
      && (forall i :: FundsAt(ledger, calls, i, id) ==>
            id in s.campaigns && s.campaigns[id].advertiser == calls[i].advertiser && s.campaigns[id].active)
    decreases |calls|
  {
    if calls != [] {
      var n := |calls| - 1;
      CampaignIsTheFunders(ledger, calls[..n], id);
      FundsBefore(ledger, calls, id);
      LastStep(ledger, calls, id, "");
      FundedByItself(After(ledger, calls[..n]), calls[n], id);
      hide After, Funds, ReservationMoney, FundsAt, EarningsRight, SameTerms, RunRight;
      var t := After(ledger, calls).books.escrow;
      forall i | FundsAt(ledger, calls, i, id)
        ensures id in t.campaigns && t.campaigns[id].advertiser == calls[i].advertiser && t.campaigns[id].active
      {
        if i != n {
          FundsInRange(ledger, calls[..n], id);
          assert calls[..n][i] == calls[i];
        }
      }
    }
  }

  lemma FundedByItself(sys: System, call: Call, id: string)
    ensures Funds(sys, call, id) ==> call.Fund?
  {
  }

  /** Call `i` is the first accepted funding of the campaign. */
  ghost predicate FirstFundsAt(ledger: map<string, real>, calls: seq<Call>, i: int, id: string) {
    FundsAt(ledger, calls, i, id) && forall j :: FundsAt(ledger, calls, j, id) ==> i <= j
  }

  lemma FirstFundsBefore(ledger: map<string, real>, calls: seq<Call>, i: int, id: string)
    requires Nonnegative(ledger) && calls != [] && FirstFundsAt(ledger, calls, i, id)
    ensures var n := |calls| - 1;
      if i < n then FirstFundsAt(ledger, calls[..n], i, id)
      else i == n && Funds(After(ledger, calls[..n]), calls[n], id)
           && id !in After(ledger, calls[..n]).books.escrow.campaigns
  {
    hide After, Funds, FundsAt;
    var n := |calls| - 1;
    FundsBefore(ledger, calls, id);
    FundsInRange(ledger, calls[..n], id);
    CampaignIsTheFunders(ledger, calls[..n], id);
  }

  /** Over every run, the first accepted funding of a campaign settles its holdback. */
  lemma {:induction false} HoldbackOfFirstFunding(ledger: map<string, real>, calls: seq<Call>, i: int, id: string)
    requires Nonnegative(ledger) && FirstFundsAt(ledger, calls, i, id)
    ensures 0 <= i < |calls| && calls[i].Fund?
    ensures id in After(ledger, calls).books.escrow.campaigns
    ensures After(ledger, calls).books.escrow.campaigns[id].holdbackBps == calls[i].bps
    decreases |calls|
  {
    var n := |calls| - 1;
    FirstFundsBefore(ledger, calls, i, id);
    LastStep(ledger, calls, id, "");
    hide After, ReservationMoney, FirstFundsAt;
    if i < n {
      HoldbackOfFirstFunding(ledger, calls[..n], i, id);
    }
  }

  // -------------------------------------------------------------------------------------------
  // When a proof pays

  /** Two timestamps share a window exactly if they lie in the same quarter of an hour. */
  lemma WindowIsQuarter(x: int, y: int)
    ensures BucketOf(x) == BucketOf(y) <==> x / 900 == y / 900
    ensures BucketOf(x).start <= x < BucketOf(x).start + 900
  {
  }

  /** A nonce of 32 characters, both signatures, a percentage as score and five minutes at most. */
  predicate InOrder(p: Proof, checked: int) {
    p.nonceLength >= 32 && p.playerSigned && p.cdnSigned && 0.0 <= p.score <= 100.0 && checked <= p.timestamp + 5 * 60
  }

  /** With no proofs held, the second of two proofs pays its reservation at once exactly if both proofs are
      in order, their timestamps lie in the same quarter of an hour, its score is 70 or more and the
      reservation is open and has not expired. */
  lemma SecondProofPays(sys: System, p: Proof, q: Proof, checked: int, now: int, checked': int, now': int)
    requires Valid(sys.books.escrow) && sys.witnesses == map[] && q.reservationID !in sys.books.escrow.paid
    ensures var t := Next(Next(sys, Prove(p, checked, now)), Prove(q, checked', now'));
      var s, r := sys.books.escrow, q.reservationID;
      r in t.books.escrow.paid <==>
        && InOrder(p, checked) && InOrder(q, checked') && p.timestamp / 900 == q.timestamp / 900 && q.score >= 70.0
        && r in s.reservations && !s.reservations[r].settled && now' <= s.reservations[r].expires
  {
    hide Valid, Tried, BucketOf;
    WindowIsQuarter(p.timestamp, q.timestamp);
    var mid := Next(sys, Prove(p, checked, now));
    assert mid.books == sys.books;
    StepPays(mid, Prove(q, checked', now'), q.reservationID);
  }

  /** Over every run: a campaign can be funded by its advertiser, or by anybody before the first funding, with
      any positive amount on the ledger and a holdback of at most a fifth. */
  lemma WhoCanFund(ledger: map<string, real>, calls: seq<Call>, id: string, a: string, amount: real, bps: nat)
    requires Nonnegative(ledger)
    ensures var s := After(ledger, calls).books.escrow;
      CanFund(s, id, a, amount, bps) <==>
        && 0.0 < amount <= Get(s.ledger, a) && 5 * bps <= 10000
        && (forall i :: FundsAt(ledger, calls, i, id) ==> calls[i].advertiser == a)
  {
    hide After, FundsAt;
    CampaignIsTheFunders(ledger, calls, id);
  }

  /** Over every run: a positive amount within the available budget of a funded campaign can be reserved for at
      most ten seconds, under an ID that no call has reserved before. */
  lemma WhoCanReserve(ledger: map<string, real>, calls: seq<Call>, r: string, id: string, amount: real, ttl: nat)
    requires Nonnegative(ledger)
    ensures var s := After(ledger, calls).books.escrow;
      CanReserve(s, r, id, amount, ttl) <==>
        && 0.0 < amount <= CampaignAt(s, id).available && ttl <= 10
        && (exists i :: FundsAt(ledger, calls, i, id)) && !(exists i :: ReservesAt(ledger, calls, i, r))
  {
    hide After, FundsAt, ReservesAt;
    CampaignIsTheFunders(ledger, calls, id);
    ReservationIsTheCall(ledger, calls, r);
  }
}
