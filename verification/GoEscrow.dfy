/** The chain VM's escrow of AUSD campaigns, with reservations, holdbacks and guaranteed deals.
    Decimals are exact, records are values in maps, and the clock is a parameter (seconds). */
module GoEscrow {
  import opened Numbers
  import opened RealSums

  const ESCROW := "escrow"

  datatype Deal = Deal(id: string, publisher: string, escrowAmount: real)

  datatype Campaign = Campaign(
    advertiser: string,
    total: real,
    available: real,
    reserved: real,
    spent: real,
    active: bool,
    holdbackBps: int,
    deals: seq<Deal>)

  datatype Reservation = Reservation(
    campaign: string,
    publisher: string,
    amount: real,
    expires: int,
    settled: bool)

  datatype PendingRelease = PendingRelease(publisher: string, amount: real, due: int)

  /** Escrow records, the AUSD ledger of the exchange, and the list of payments made, one entry for
      each. */
  datatype State = State(
    campaigns: map<string, Campaign>,
    reservations: map<string, Reservation>,
    publisherBalances: map<string, real>,
    releases: seq<PendingRelease>,
    ledger: map<string, real>,
    paid: seq<string>)

  // -------------------------------------------------------------------------------------------
  // The AUSD ledger

  predicate CanTransfer(ledger: map<string, real>, from: string, amount: real) {
    amount > 0.0 && from in ledger && ledger[from] >= amount
  }

  /** The destination is read after the debit, so that a transfer to oneself changes nothing. */
  function Transferred(ledger: map<string, real>, from: string, to: string, amount: real): map<string, real> {
    var debited := ledger[from := Get(ledger, from) - amount];
    debited[to := Get(debited, to) + amount]
  }

  function Gain(account: string, from: string, to: string, amount: real): real {
    (if account == to then amount else 0.0) - (if account == from then amount else 0.0)
  }

  /** Transfers conserve the supply, move exactly the amount and leave nobody in debt. */
  lemma TransferConserves(ledger: map<string, real>, from: string, to: string, amount: real)
    requires Nonnegative(ledger) && CanTransfer(ledger, from, amount)
    ensures Sum(Transferred(ledger, from, to, amount)) == Sum(ledger)
    ensures Nonnegative(Transferred(ledger, from, to, amount))
    ensures forall a :: Get(Transferred(ledger, from, to, amount), a) == Get(ledger, a) + Gain(a, from, to, amount)
  {
    hide Sum;
    var debited := ledger[from := Get(ledger, from) - amount];
    SumUpdate(ledger, from, Get(ledger, from) - amount);
    SumUpdate(debited, to, Get(debited, to) + amount);
  }

  // -------------------------------------------------------------------------------------------
  // Calls

  const NO_CAMPAIGN := Campaign("", 0.0, 0.0, 0.0, 0.0, false, 0, [])

  function CampaignAt(s: State, id: string): Campaign {
    if id in s.campaigns then s.campaigns[id] else NO_CAMPAIGN
  }

  predicate CanFund(s: State, id: string, advertiser: string, amount: real, bps: nat) {
    && amount > 0.0 && bps <= 2000
    && (id in s.campaigns ==> s.campaigns[id].advertiser == advertiser)
    && CanTransfer(s.ledger, advertiser, amount)
  }

  function Funded(s: State, id: string, advertiser: string, amount: real, bps: nat): State {
    var c := if id in s.campaigns then s.campaigns[id]
             else Campaign(advertiser, 0.0, 0.0, 0.0, 0.0, true, bps, []);
    s.(campaigns := s.campaigns[id := c.(total := c.total + amount, available := c.available + amount)],
       ledger := Transferred(s.ledger, advertiser, ESCROW, amount))
  }

  predicate CanReserve(s: State, r: string, id: string, amount: real, ttl: nat) {
    && ttl <= 10 && amount > 0.0 && r !in s.reservations
    && id in s.campaigns && s.campaigns[id].active && s.campaigns[id].available >= amount
  }

  function ReservedBy(s: State, r: string, id: string, publisher: string, amount: real, expires: int): State {
    var c := CampaignAt(s, id);
    s.(campaigns := s.campaigns[id := c.(available := c.available - amount, reserved := c.reserved + amount)],
       reservations := s.reservations[r := Reservation(id, publisher, amount, expires, false)])
  }

  /** `proofLength` is the length of the proof string, all that the escrow looks at. */
  predicate CanSettle(s: State, r: string, proofLength: nat, now: int) {
    && r in s.reservations && !s.reservations[r].settled && now <= s.reservations[r].expires
    && proofLength >= 32
  }

  function Holdback(amount: real, bps: int): real {
    amount * (bps as real) / 10000.0
  }

  function SettledBy(s: State, r: string, now: int): State
    requires r in s.reservations
  {
    var v := s.reservations[r];
    var c := CampaignAt(s, v.campaign);
    var holdback := Holdback(v.amount, c.holdbackBps);
    s.(campaigns := s.campaigns[v.campaign := c.(reserved := c.reserved - v.amount, spent := c.spent + v.amount)],
       publisherBalances :=
         s.publisherBalances[v.publisher := Get(s.publisherBalances, v.publisher) + (v.amount - holdback)],
       releases := if holdback > 0.0
                   then s.releases + [PendingRelease(v.publisher, holdback, now + 48 * 3600)] else s.releases,
       reservations := s.reservations[r := v.(settled := true)],
       paid := s.paid + [r])
  }

  /** Impressions times price per thousand plus the penalty buffer; the count goes through int64. */
  function DealEscrow(impressions: nat, fixedCPM: real, penaltyRate: real): real {
    var cost := (ToInt64(impressions) as real) * fixedCPM / 1000.0;
    cost + cost * penaltyRate
  }

  predicate CanDeal(s: State, id: string, escrowAmount: real) {
    id in s.campaigns && s.campaigns[id].available >= escrowAmount
  }

  function DealtBy(s: State, id: string, deal: Deal): State {
    var c := CampaignAt(s, id);
    s.(campaigns :=
         s.campaigns[id := c.(available := c.available - deal.escrowAmount, deals := c.deals + [deal])])
  }

  // -------------------------------------------------------------------------------------------
  // Invariant

  function DealsTotal(deals: seq<Deal>): real {
    if deals == [] then 0.0 else DealsTotal(deals[..|deals| - 1]) + deals[|deals| - 1].escrowAmount
  }

  function ReleasesTotal(releases: seq<PendingRelease>): real {
    if releases == [] then 0.0 else ReleasesTotal(releases[..|releases| - 1]) + releases[|releases| - 1].amount
  }

  function PendingAmount(v: Reservation, id: string): real {
    if !v.settled && v.campaign == id then v.amount else 0.0
  }

  ghost function Pending(reservations: map<string, Reservation>, id: string): map<string, real> {
    map r | r in reservations :: PendingAmount(reservations[r], id)
  }

  ghost function Spent(campaigns: map<string, Campaign>): map<string, real> {
    map c | c in campaigns :: campaigns[c].spent
  }

  ghost function Totals(campaigns: map<string, Campaign>): map<string, real> {
    map c | c in campaigns :: campaigns[c].total
  }

  /** Every campaign's budget is available, reserved, spent or locked in a guaranteed deal. */
  predicate BudgetRight(c: Campaign) {
    && c.total == c.available + c.reserved + c.spent + DealsTotal(c.deals) && 0 <= c.holdbackBps <= 2000
    && c.available >= 0.0 && c.reserved >= 0.0 && c.spent >= 0.0
  }

  ghost predicate BudgetsRight(s: State) {
    && (forall c :: c in s.campaigns ==> BudgetRight(s.campaigns[c]))
    && (forall c :: CampaignAt(s, c).reserved == Sum(Pending(s.reservations, c)))
  }

  /** The payment list names every settled reservation exactly once. */
  ghost predicate PaidRight(s: State) {
    && (forall r :: r in s.paid <==> r in s.reservations && s.reservations[r].settled)
    && (forall i, j :: 0 <= i < j < |s.paid| ==> s.paid[i] != s.paid[j])
    && (forall r :: r in s.reservations ==> s.reservations[r].amount > 0.0 && s.reservations[r].campaign in s.campaigns)
  }

  /** All spending is in publisher balances or in pending releases. */
  ghost predicate SpendingRight(s: State) {
    && Sum(Spent(s.campaigns)) == Sum(s.publisherBalances) + ReleasesTotal(s.releases)
    && Nonnegative(s.publisherBalances)
  }

  /** How far the campaign totals exceed what the escrow account holds. */
  ghost function Unbacked(s: State): real {
    Sum(Totals(s.campaigns)) - Get(s.ledger, ESCROW)
  }

  ghost predicate Valid(s: State) {
    BudgetsRight(s) && PaidRight(s) && SpendingRight(s) && Nonnegative(s.ledger)
  }

  /** No campaigns yet, and the ledger as it is found. */
  function Opening(ledger: map<string, real>): State {
    State(map[], map[], map[], [], ledger, [])
  }

  lemma StartValid(ledger: map<string, real>)
    requires Nonnegative(ledger)
    ensures Valid(Opening(ledger)) && Unbacked(Opening(ledger)) == -Get(ledger, ESCROW)
  {
    hide Sum;
    var s := Opening(ledger);
    SumNone<string>();
    assert forall c :: Pending(s.reservations, c) == map[];
    assert Spent(s.campaigns) == map[] && Totals(s.campaigns) == map[];
  }

  lemma SpentUpdate(campaigns: map<string, Campaign>, id: string, c: Campaign)
    ensures Sum(Spent(campaigns[id := c]))
         == Sum(Spent(campaigns)) - (if id in campaigns then campaigns[id].spent else 0.0) + c.spent
  {
    assert Spent(campaigns[id := c]) == Spent(campaigns)[id := c.spent];
    SumUpdate(Spent(campaigns), id, c.spent);
  }

  lemma TotalsUpdate(campaigns: map<string, Campaign>, id: string, c: Campaign)
    ensures Sum(Totals(campaigns[id := c]))
         == Sum(Totals(campaigns)) - (if id in campaigns then campaigns[id].total else 0.0) + c.total
  {
    assert Totals(campaigns[id := c]) == Totals(campaigns)[id := c.total];
    SumUpdate(Totals(campaigns), id, c.total);
  }

  lemma PendingUpdate(reservations: map<string, Reservation>, r: string, v: Reservation, id: string)
    ensures Sum(Pending(reservations[r := v], id)) == Sum(Pending(reservations, id))
      - (if r in reservations then PendingAmount(reservations[r], id) else 0.0) + PendingAmount(v, id)
  {
    assert Pending(reservations[r := v], id) == Pending(reservations, id)[r := PendingAmount(v, id)];
    SumUpdate(Pending(reservations, id), r, PendingAmount(v, id));
  }

  lemma FundKeeps(s: State, id: string, advertiser: string, amount: real, bps: nat)
    requires Valid(s) && CanFund(s, id, advertiser, amount, bps)
    ensures Valid(Funded(s, id, advertiser, amount, bps))
    ensures Unbacked(Funded(s, id, advertiser, amount, bps))
         == Unbacked(s) + if advertiser == ESCROW then amount else 0.0
  {
    hide Sum, Pending, Spent, Totals, Transferred;
    var t := Funded(s, id, advertiser, amount, bps);
    TransferConserves(s.ledger, advertiser, ESCROW, amount);
    SpentUpdate(s.campaigns, id, t.campaigns[id]);
    TotalsUpdate(s.campaigns, id, t.campaigns[id]);
    assert forall c :: CampaignAt(t, c).reserved == CampaignAt(s, c).reserved;
  }

  lemma ReserveBudgets(s: State, r: string, id: string, publisher: string, amount: real, expires: int)
    requires BudgetsRight(s) && id in s.campaigns && r !in s.reservations
    requires 0.0 < amount <= s.campaigns[id].available
    ensures BudgetsRight(ReservedBy(s, r, id, publisher, amount, expires))
  {
    hide Sum, Pending;
    var t := ReservedBy(s, r, id, publisher, amount, expires);
    forall c
      ensures CampaignAt(t, c).reserved == Sum(Pending(t.reservations, c))
    {
      PendingUpdate(s.reservations, r, t.reservations[r], c);
      assert CampaignAt(s, c).reserved == Sum(Pending(s.reservations, c));
    }
  }

  lemma ReserveKeeps(s: State, r: string, id: string, publisher: string, amount: real, ttl: nat, expires: int)
    requires Valid(s) && CanReserve(s, r, id, amount, ttl)
    ensures Valid(ReservedBy(s, r, id, publisher, amount, expires))
    ensures Unbacked(ReservedBy(s, r, id, publisher, amount, expires)) == Unbacked(s)
  {
    hide Sum, BudgetsRight, Spent, Totals;
    var t := ReservedBy(s, r, id, publisher, amount, expires);
    ReserveBudgets(s, r, id, publisher, amount, expires);
    SpentUpdate(s.campaigns, id, t.campaigns[id]);
    TotalsUpdate(s.campaigns, id, t.campaigns[id]);
  }

  lemma PendingNonnegative(reservations: map<string, Reservation>, id: string)
    requires forall r :: r in reservations ==> reservations[r].amount > 0.0
    ensures Sum(Pending(reservations, id)) >= 0.0
  {
    SumNonnegative(Pending(reservations, id));
  }

  lemma SettleBudgets(s: State, r: string, now: int)
    requires BudgetsRight(s) && r in s.reservations && !s.reservations[r].settled
    requires s.reservations[r].campaign in s.campaigns
    requires forall v :: v in s.reservations ==> s.reservations[v].amount > 0.0
    ensures BudgetsRight(SettledBy(s, r, now))
  {
    hide Sum, Pending, Holdback;
    var t := SettledBy(s, r, now);
    forall c
      ensures CampaignAt(t, c).reserved == Sum(Pending(t.reservations, c)) >= 0.0
    {
      PendingUpdate(s.reservations, r, t.reservations[r], c);
      PendingNonnegative(t.reservations, c);
      assert CampaignAt(s, c).reserved == Sum(Pending(s.reservations, c));
    }
    assert BudgetRight(s.campaigns[s.reservations[r].campaign]);
    assert CampaignAt(t, s.reservations[r].campaign).reserved >= 0.0;
  }

  lemma ReleasesAppend(releases: seq<PendingRelease>, release: PendingRelease)
    ensures ReleasesTotal(releases + [release]) == ReleasesTotal(releases) + release.amount
  {
    assert (releases + [release])[..|releases|] == releases;
  }

  lemma SettleSpending(s: State, r: string, now: int)
    requires SpendingRight(s) && r in s.reservations && s.reservations[r].campaign in s.campaigns
    requires 0 <= s.campaigns[s.reservations[r].campaign].holdbackBps <= 2000 && s.reservations[r].amount > 0.0
    ensures SpendingRight(SettledBy(s, r, now))
  {
    hide Sum, Spent, Holdback, ReleasesTotal;
    var v, t := s.reservations[r], SettledBy(s, r, now);
    var holdback := Holdback(v.amount, CampaignAt(s, v.campaign).holdbackBps);
    SpentUpdate(s.campaigns, v.campaign, t.campaigns[v.campaign]);
    SumUpdate(s.publisherBalances, v.publisher, Get(s.publisherBalances, v.publisher) + (v.amount - holdback));
    ReleasesAppend(s.releases, PendingRelease(v.publisher, holdback, now + 48 * 3600));
    HoldbackBounds(v.amount, CampaignAt(s, v.campaign).holdbackBps);
  }

  lemma SettleKeeps(s: State, r: string, proofLength: nat, now: int)
    requires Valid(s) && CanSettle(s, r, proofLength, now)
    ensures Valid(SettledBy(s, r, now)) && r !in s.paid
    ensures Unbacked(SettledBy(s, r, now)) == Unbacked(s)
  {
    hide Sum, Pending, SpendingRight, Totals, Holdback;
    var v, t := s.reservations[r], SettledBy(s, r, now);
    assert BudgetRight(s.campaigns[v.campaign]);
    SettleBudgets(s, r, now);
    SettleSpending(s, r, now);
    TotalsUpdate(s.campaigns, v.campaign, t.campaigns[v.campaign]);
  }

  lemma DealsAppend(deals: seq<Deal>, deal: Deal)
    ensures DealsTotal(deals + [deal]) == DealsTotal(deals) + deal.escrowAmount
  {
    assert (deals + [deal])[..|deals|] == deals;
  }

  lemma DealBudgets(s: State, id: string, deal: Deal)
    requires BudgetsRight(s) && CanDeal(s, id, deal.escrowAmount)
    ensures BudgetsRight(DealtBy(s, id, deal))
  {
    hide Sum, Pending, DealsTotal;
    var c, t := s.campaigns[id], DealtBy(s, id, deal);
    DealsAppend(c.deals, deal);
    assert BudgetRight(c);
    forall x
      ensures CampaignAt(t, x).reserved == Sum(Pending(t.reservations, x))
    {
      assert CampaignAt(s, x).reserved == Sum(Pending(s.reservations, x));
    }
  }

  lemma DealKeeps(s: State, id: string, deal: Deal)
    requires Valid(s) && CanDeal(s, id, deal.escrowAmount)
    ensures Valid(DealtBy(s, id, deal)) && Unbacked(DealtBy(s, id, deal)) == Unbacked(s)
  {
    hide Sum, BudgetsRight, Spent, Totals;
    var t := DealtBy(s, id, deal);
    DealBudgets(s, id, deal);
    SpentUpdate(s.campaigns, id, t.campaigns[id]);
    TotalsUpdate(s.campaigns, id, t.campaigns[id]);
  }

  // -------------------------------------------------------------------------------------------
  // What the invariant means

  /** None of the three is zero, and one or all of them are negative. */
  predicate OddlyNegative(x: real, y: real, z: real) {
    x != 0.0 && y != 0.0 && z != 0.0 && (((x < 0.0) != (y < 0.0)) != (z < 0.0))
  }

  lemma ProductSign(x: real, y: real)
    ensures x * y < 0.0 <==> x != 0.0 && y != 0.0 && ((x < 0.0) != (y < 0.0))
    ensures x * y == 0.0 <==> x == 0.0 || y == 0.0
  {
    if x > 0.0 && y > 0.0 {
      assert x * y > 0.0;
    } else if x < 0.0 && y < 0.0 {
      assert -x * -y > 0.0;
    } else if x < 0.0 && y > 0.0 {
      assert -x * y > 0.0;
    } else if x > 0.0 && y < 0.0 {
      assert x * -y > 0.0;
    }
  }

  /** The code checks neither count, price nor penalty rate of a deal. Its escrow is negative, and raises
      the available budget, exactly if an odd number of the three factors is negative: the count as an
      int64, the price and one plus the penalty rate. */
  lemma DealEscrowNegative(impressions: nat, fixedCPM: real, penaltyRate: real)
    ensures DealEscrow(impressions, fixedCPM, penaltyRate) < 0.0 <==>
      OddlyNegative(ToInt64(impressions) as real, fixedCPM, 1.0 + penaltyRate)
  {
    var count, rate := ToInt64(impressions) as real, 1.0 + penaltyRate;
    var cost := count * fixedCPM / 1000.0;
    assert DealEscrow(impressions, fixedCPM, penaltyRate) == cost * rate by { OnePlus(cost, penaltyRate); }
    ProductSign(count, fixedCPM);
    ProductSign(cost, rate);
  }

  lemma OnePlus(x: real, y: real)
    ensures x + x * y == x * (1.0 + y)
  {
  }

  /** A thousand impressions without penalty cost the price per thousand; counts add up while they fit an
      int64, and a penalty rate adds that share of the cost. */
  lemma DealPrice(i: nat, j: nat, fixedCPM: real, penaltyRate: real)
    ensures DealEscrow(1000, fixedCPM, 0.0) == fixedCPM
    ensures i + j < TWO_TO_THE_63 ==>
      DealEscrow(i + j, fixedCPM, penaltyRate)
      == DealEscrow(i, fixedCPM, penaltyRate) + DealEscrow(j, fixedCPM, penaltyRate)
    ensures DealEscrow(i, fixedCPM, penaltyRate)
         == DealEscrow(i, fixedCPM, 0.0) + penaltyRate * DealEscrow(i, fixedCPM, 0.0)
  {
    ToInt64Fits(1000);
    if i + j < TWO_TO_THE_63 {
      ToInt64Fits(i);
      ToInt64Fits(j);
      ToInt64Fits(i + j);
      DealTimes(i, fixedCPM, penaltyRate);
      DealTimes(j, fixedCPM, penaltyRate);
      DealTimes(i + j, fixedCPM, penaltyRate);
      var rate := fixedCPM * (1.0 + penaltyRate);
      assert ((i + j) as real) * rate == (i as real) * rate + (j as real) * rate;
    }
  }

  /** A thousand times the escrow is count times price with the penalty on top. */
  lemma DealTimes(i: nat, fixedCPM: real, penaltyRate: real)
    ensures 1000.0 * DealEscrow(i, fixedCPM, penaltyRate) == (ToInt64(i) as real) * (fixedCPM * (1.0 + penaltyRate))
  {
    var count := ToInt64(i) as real;
    OnePlus(count * fixedCPM / 1000.0, penaltyRate);
    TimesThousand(count * fixedCPM, 1.0 + penaltyRate);
    assert count * fixedCPM * (1.0 + penaltyRate) == count * (fixedCPM * (1.0 + penaltyRate));
  }

  lemma TimesThousand(x: real, y: real)
    ensures 1000.0 * (x / 1000.0 * y) == x * y
  {
  }

  /** An accepted deal for a number of impressions that fits an int64 lowers the available budget by a
      thousandth of count times price, with the penalty on top; a deal is accepted exactly if the campaign
      has that much. */
  lemma DealLocks(s: State, id: string, deal: Deal, impressions: nat, fixedCPM: real, penaltyRate: real)
    requires impressions < TWO_TO_THE_63 && deal.escrowAmount == DealEscrow(impressions, fixedCPM, penaltyRate)
    ensures CanDeal(s, id, deal.escrowAmount) <==>
      id in s.campaigns
      && (impressions as real) * (fixedCPM * (1.0 + penaltyRate)) <= 1000.0 * s.campaigns[id].available
    ensures 1000.0 * (CampaignAt(s, id).available - CampaignAt(DealtBy(s, id, deal), id).available)
         == (impressions as real) * (fixedCPM * (1.0 + penaltyRate))
  {
    hide DealEscrow;
    ToInt64Fits(impressions);
    DealTimes(impressions, fixedCPM, penaltyRate);
    var price := (impressions as real) * (fixedCPM * (1.0 + penaltyRate));
    Thousandth(deal.escrowAmount, price, CampaignAt(s, id).available);
  }

  lemma Thousandth(part: real, whole: real, x: real)
    requires 1000.0 * part == whole
    ensures part <= x <==> whole <= 1000.0 * x
    ensures 1000.0 * (x - (x - part)) == whole
  {
  }

  /** A count of 2^63 impressions at a positive price has a negative escrow. */
  lemma HugeDealIsNegative()
    ensures DealEscrow(TWO_TO_THE_63, 1.0, 0.0) < 0.0
  {
    assert ToInt64(TWO_TO_THE_63) == -TWO_TO_THE_63;
    DealEscrowNegative(TWO_TO_THE_63, 1.0, 0.0);
  }

  /** A settlement pays the publisher at once all but the holdback, at least four fifths, and schedules
      exactly the rest for 48 hours later; the rest is the campaign's basis points of the amount. */
  lemma SettlementShares(s: State, r: string, proofLength: nat, now: int)
    requires Valid(s) && CanSettle(s, r, proofLength, now)
    ensures var v, t := s.reservations[r], SettledBy(s, r, now);
      var immediate := Get(t.publisherBalances, v.publisher) - Get(s.publisherBalances, v.publisher);
      && 0.8 * v.amount <= immediate <= v.amount
      && 10000.0 * (v.amount - immediate) == (CampaignAt(s, v.campaign).holdbackBps as real) * v.amount
      && t.releases == (if immediate < v.amount
                        then s.releases + [PendingRelease(v.publisher, v.amount - immediate, now + 48 * 3600)]
                        else s.releases)
  {
    hide Sum, Pending, Spent, Totals, Holdback;
    var v := s.reservations[r];
    assert BudgetRight(s.campaigns[v.campaign]);
    HoldbackBounds(v.amount, s.campaigns[v.campaign].holdbackBps);
    HoldbackShare(v.amount, s.campaigns[v.campaign].holdbackBps);
  }

  lemma HoldbackShare(amount: real, bps: int)
    ensures 10000.0 * Holdback(amount, bps) == (bps as real) * amount
  {
  }

  lemma HoldbackBounds(amount: real, bps: int)
    requires amount > 0.0 && 0 <= bps <= 2000
    ensures 0.0 <= Holdback(amount, bps) <= 0.2 * amount
  {
    var b := bps as real;
    assert 0.0 <= b <= 2000.0;
    NonnegativeProduct(amount, b);
    NonnegativeProduct(amount, 2000.0 - b);
    assert amount * (2000.0 - b) == amount * 2000.0 - amount * b;
  }

  lemma NonnegativeProduct(x: real, y: real)
    requires x >= 0.0 && y >= 0.0
    ensures x * y >= 0.0
  {
  }

  /** A new reservation can be settled exactly until it expires, on a proof of at least 32 characters,
      and never a second time. */
  lemma SettlementWindow(s: State, r: string, id: string, publisher: string, amount: real, ttl: nat, expires: int,
                         now: int, proofLength: nat)
    requires Valid(s) && CanReserve(s, r, id, amount, ttl)
    ensures var t := ReservedBy(s, r, id, publisher, amount, expires);
      && (CanSettle(t, r, proofLength, now) <==> now <= expires && proofLength >= 32)
      && forall later: int, length: nat :: !CanSettle(SettledBy(t, r, now), r, length, later)
  {
    hide Sum, Pending, Spent, Totals, BudgetsRight, SpendingRight, Holdback;
  }
}
