/** The campaign escrow contract as a state machine over its calls. A call that reverts changes
    nothing. AUSD is an EIP-20 token that moves exact amounts. */
module Escrow {
  import opened MapSums

  datatype Address = Address(value: nat)
  datatype CampaignID = CampaignID(value: nat)
  datatype ReservationID = ReservationID(value: nat)

  const ZERO := Address(0)
  const SELF := Address(1)  // the contract itself
  const TWO_TO_THE_256: int := 0x1_0000000000000000_0000000000000000_0000000000000000_0000000000000000

  datatype Campaign = Campaign(
    advertiser: Address,
    total: int,
    available: int,
    reserved: int,
    spent: int,
    active: bool,
    holdbackBps: int)

  datatype Reservation = Reservation(
    campaign: CampaignID,
    publisher: Address,
    amount: int,
    expires: int,
    settled: bool)

  /** Contract storage, the token ledger, and the AUSD that reached the contract other than by funding. */
  datatype State = State(
    campaigns: map<CampaignID, Campaign>,
    reservations: map<ReservationID, Reservation>,
    publisherBalances: map<Address, int>,
    ausd: map<Address, int>,
    unsolicited: int)

  datatype Call =
    | Fund(id: CampaignID, amount: nat, holdbackBps: nat, approved: bool)
    | Reserve(reservation: ReservationID, id: CampaignID, publisher: Address, amount: nat, ttl: nat)
    | Settle(reservation: ReservationID)
    | Release(reservation: ReservationID)
    | WithdrawPublisher
    | WithdrawCampaign(id: CampaignID)
    | Pause(id: CampaignID)
    | TransferToken(to: Address, amount: nat)  // anybody else's use of the token

  /** A call, its sender and the block time. */
  datatype Tx = Tx(call: Call, sender: Address, now: nat)

  function Moved(ausd: map<Address, int>, from: Address, to: Address, amount: int): map<Address, int> {
    var debited := ausd[from := Get(ausd, from) - amount];
    debited[to := Get(debited, to) + amount]
  }

  function Immediate(amount: int, holdbackBps: int): int {
    amount * (10000 - holdbackBps) / 10000
  }

  const NEW_CAMPAIGN := Campaign(ZERO, 0, 0, 0, 0, false, 0)

  /** Storage reads as zero where nothing was written. */
  function CampaignAt(s: State, id: CampaignID): Campaign {
    if id in s.campaigns then s.campaigns[id] else NEW_CAMPAIGN
  }

  predicate Exists(s: State, r: ReservationID) {
    r in s.reservations && s.reservations[r].amount > 0
  }

  /** The conditions under which the call does not revert. */
  predicate Accepted(s: State, tx: Tx) {
    match tx.call
    case Fund(id, amount, bps, approved) =>
      && amount > 0 && bps <= 2000
      && (CampaignAt(s, id).advertiser == ZERO || CampaignAt(s, id).advertiser == tx.sender)
      && approved && Get(s.ausd, tx.sender) >= amount
      && CampaignAt(s, id).total + amount < TWO_TO_THE_256
    case Reserve(r, id, publisher, amount, ttl) =>
      && ttl <= 10 && amount > 0 && !Exists(s, r)
      && CampaignAt(s, id).active && CampaignAt(s, id).available >= amount
      && tx.now + ttl < TWO_TO_THE_256
    case Settle(r) =>
      && Exists(s, r) && !s.reservations[r].settled && tx.now <= s.reservations[r].expires
      && s.reservations[r].amount * (10000 - CampaignAt(s, s.reservations[r].campaign).holdbackBps) < TWO_TO_THE_256
    case Release(r) =>
      Exists(s, r) && !s.reservations[r].settled && tx.now > s.reservations[r].expires
    case WithdrawPublisher => Get(s.publisherBalances, tx.sender) > 0
    case WithdrawCampaign(id) => CampaignAt(s, id).advertiser == tx.sender && CampaignAt(s, id).available > 0
    case Pause(id) => CampaignAt(s, id).advertiser == tx.sender
    case TransferToken(to, amount) => Get(s.ausd, tx.sender) >= amount
  }

  function Effect(s: State, tx: Tx): State
    requires Accepted(s, tx)
  {
    match tx.call
    case Fund(id, amount, bps, _) =>
      var c := CampaignAt(s, id);
      var d := if c.advertiser == ZERO then c.(advertiser := tx.sender, holdbackBps := bps, active := true) else c;
      s.(campaigns := s.campaigns[id := d.(total := d.total + amount, available := d.available + amount)],
         ausd := Moved(s.ausd, tx.sender, SELF, amount))
    case Reserve(r, id, publisher, amount, ttl) =>
      var c := CampaignAt(s, id);
      s.(reservations := s.reservations[r := Reservation(id, publisher, amount, tx.now + ttl, false)],
         campaigns := s.campaigns[id := c.(available := c.available - amount, reserved := c.reserved + amount)])
    case Settle(r) =>
      var v := s.reservations[r];
      var c := CampaignAt(s, v.campaign);
      var immediate := Immediate(v.amount, c.holdbackBps);
      var holdback := v.amount - immediate;
      var balance := Get(s.publisherBalances, v.publisher) + immediate;
      s.(campaigns := s.campaigns[v.campaign := c.(reserved := c.reserved - v.amount, spent := c.spent + v.amount)],
         reservations := s.reservations[r := v.(settled := true)],
         publisherBalances :=
           s.publisherBalances[v.publisher := if holdback > 0 then balance + holdback else balance])
    case Release(r) =>
      var v := s.reservations[r];
      var c := CampaignAt(s, v.campaign);
      s.(campaigns :=
           s.campaigns[v.campaign := c.(available := c.available + v.amount, reserved := c.reserved - v.amount)],
         reservations := s.reservations - {r})
    case WithdrawPublisher =>
      s.(publisherBalances := s.publisherBalances[tx.sender := 0],
         ausd := Moved(s.ausd, SELF, tx.sender, Get(s.publisherBalances, tx.sender)))
    case WithdrawCampaign(id) =>
      var c := CampaignAt(s, id);
      s.(campaigns := s.campaigns[id := c.(available := 0, total := c.total - c.available)],
         ausd := Moved(s.ausd, SELF, tx.sender, c.available))
    case Pause(id) => s.(campaigns := s.campaigns[id := CampaignAt(s, id).(active := false)])
    case TransferToken(to, amount) =>
      s.(ausd := Moved(s.ausd, tx.sender, to, amount),
         unsolicited := if to == SELF then s.unsolicited + amount else s.unsolicited)
  }

  function Step(s: State, tx: Tx): State {
    if Accepted(s, tx) then Effect(s, tx) else s
  }

  // -------------------------------------------------------------------------------------------
  // Invariant

  ghost function Owed(campaigns: map<CampaignID, Campaign>): map<CampaignID, int> {
    map c | c in campaigns :: campaigns[c].available + campaigns[c].reserved
  }

  function PendingAmount(v: Reservation, id: CampaignID): int {
    if !v.settled && v.campaign == id then v.amount else 0
  }

  /** What each reservation still locks of the campaign's budget. */
  ghost function Pending(reservations: map<ReservationID, Reservation>, id: CampaignID): map<ReservationID, int> {
    map r | r in reservations :: PendingAmount(reservations[r], id)
  }

  /** Everything the contract owes: unspent budgets and publisher earnings. */
  ghost function Liabilities(s: State): int {
    Sum(Owed(s.campaigns)) + Sum(s.publisherBalances)
  }

  predicate CampaignRight(c: Campaign) {
    && c.total == c.available + c.reserved + c.spent && c.total < TWO_TO_THE_256
    && c.available >= 0 && c.reserved >= 0 && c.spent >= 0
    && 0 <= c.holdbackBps <= 2000 && c.advertiser != ZERO
  }

  ghost predicate ReservedRight(s: State) {
    forall c :: CampaignAt(s, c).reserved == Sum(Pending(s.reservations, c))
  }

  ghost predicate ReservationsRight(s: State) {
    forall r :: r in s.reservations ==> s.reservations[r].amount > 0 && s.reservations[r].campaign in s.campaigns
  }

  ghost predicate Valid(s: State) {
    && (forall c :: c in s.campaigns ==> CampaignRight(s.campaigns[c]))
    && ReservationsRight(s)
    && ReservedRight(s)
    && Nonnegative(s.publisherBalances) && Nonnegative(s.ausd) && s.unsolicited >= 0
    && Get(s.ausd, SELF) == Liabilities(s) + s.unsolicited
    && Sum(s.ausd) < TWO_TO_THE_256
  }

  /** Neither the contract nor the zero address sends transactions. */
  predicate RealSender(tx: Tx) {
    tx.sender != SELF && tx.sender != ZERO
  }

  lemma OwedUpdate(campaigns: map<CampaignID, Campaign>, id: CampaignID, c: Campaign)
    ensures Sum(Owed(campaigns[id := c])) == Sum(Owed(campaigns)) - Get(Owed(campaigns), id) + c.available + c.reserved
  {
    assert Owed(campaigns[id := c]) == Owed(campaigns)[id := c.available + c.reserved];
    SumUpdate(Owed(campaigns), id, c.available + c.reserved);
  }

  lemma PendingUpdate(reservations: map<ReservationID, Reservation>, r: ReservationID, v: Reservation, id: CampaignID)
    ensures Sum(Pending(reservations[r := v], id))
         == Sum(Pending(reservations, id)) - Get(Pending(reservations, id), r) + PendingAmount(v, id)
  {
    assert Pending(reservations[r := v], id) == Pending(reservations, id)[r := PendingAmount(v, id)];
    SumUpdate(Pending(reservations, id), r, PendingAmount(v, id));
  }

  lemma PendingRemove(reservations: map<ReservationID, Reservation>, r: ReservationID, id: CampaignID)
    ensures Sum(Pending(reservations - {r}, id)) == Sum(Pending(reservations, id)) - Get(Pending(reservations, id), r)
  {
    assert Pending(reservations - {r}, id) == Pending(reservations, id) - {r};
    SumRemove(Pending(reservations, id), r);
  }

  lemma MovedMeaning(ausd: map<Address, int>, from: Address, to: Address, amount: int)
    requires Nonnegative(ausd) && 0 <= amount <= Get(ausd, from)
    ensures Nonnegative(Moved(ausd, from, to, amount)) && Sum(Moved(ausd, from, to, amount)) == Sum(ausd)
    ensures from != to ==> Get(Moved(ausd, from, to, amount), from) == Get(ausd, from) - amount
    ensures from != to ==> Get(Moved(ausd, from, to, amount), to) == Get(ausd, to) + amount
    ensures from == to ==> Get(Moved(ausd, from, to, amount), to) == Get(ausd, to)
    ensures forall a :: a != from && a != to ==> Get(Moved(ausd, from, to, amount), a) == Get(ausd, a)
  {
    hide Sum;
    var debited := ausd[from := Get(ausd, from) - amount];
    SumUpdate(ausd, from, Get(ausd, from) - amount);
    SumUpdate(debited, to, Get(debited, to) + amount);
  }

  lemma OwedAt(s: State, id: CampaignID)
    ensures Get(Owed(s.campaigns), id) == CampaignAt(s, id).available + CampaignAt(s, id).reserved
  {
  }

  lemma PendingAt(s: State, r: ReservationID, id: CampaignID)
    ensures Get(Pending(s.reservations, id), r)
         == if r in s.reservations then PendingAmount(s.reservations[r], id) else 0
  {
  }

  lemma FundValid(s: State, tx: Tx)
    requires Valid(s) && RealSender(tx) && tx.call.Fund? && Accepted(s, tx)
    ensures Valid(Effect(s, tx))
  {
    hide Sum, Moved, Owed, Pending, ReservedRight;
    var id, t := tx.call.id, Effect(s, tx);
    MovedMeaning(s.ausd, tx.sender, SELF, tx.call.amount);
    OwedUpdate(s.campaigns, id, t.campaigns[id]);
    OwedAt(s, id);
    ReservedKept(s, t);
  }

  /** Reservations and reserved budgets unchanged. */
  lemma ReservedKept(s: State, t: State)
    requires ReservedRight(s) && t.reservations == s.reservations
    requires forall c :: CampaignAt(t, c).reserved == CampaignAt(s, c).reserved
    ensures ReservedRight(t)
  {
    hide Sum, Pending;
  }

  lemma ReserveValid(s: State, tx: Tx)
    requires Valid(s) && tx.call.Reserve? && Accepted(s, tx)
    ensures Valid(Effect(s, tx))
  {
    hide Sum, Owed, Pending;
    var id, r, t := tx.call.id, tx.call.reservation, Effect(s, tx);
    OwedUpdate(s.campaigns, id, t.campaigns[id]);
    OwedAt(s, id);
    forall c
      ensures CampaignAt(t, c).reserved == Sum(Pending(t.reservations, c))
    {
      PendingUpdate(s.reservations, r, t.reservations[r], c);
      PendingAt(s, r, c);
    }
  }

  /** The immediate share of a payout is all but the holdback, rounded down, and within the amount. */
  lemma SharesAddUp(amount: int, bps: int)
    requires amount > 0 && 0 <= bps <= 2000
    ensures 0 <= Immediate(amount, bps) <= amount
    ensures 10000 * Immediate(amount, bps) <= amount * (10000 - bps) < 10000 * (Immediate(amount, bps) + 1)
  {
    NumberBounds(amount, bps);
  }

  lemma NumberBounds(amount: int, bps: int)
    requires amount > 0 && 0 <= bps <= 2000
    ensures 0 <= amount * (10000 - bps) <= amount * 10000
  {
  }

  /** Settling credits the publisher with exactly the reserved amount. */
  lemma SettleCreditsAll(s: State, tx: Tx)
    requires Valid(s) && tx.call.Settle? && Accepted(s, tx)
    ensures var v, t := s.reservations[tx.call.reservation], Effect(s, tx);
      t.publisherBalances == s.publisherBalances[v.publisher := Get(s.publisherBalances, v.publisher) + v.amount]
  {
    hide Sum, Owed, Pending, ReservedRight, Immediate;
    var v := s.reservations[tx.call.reservation];
    SharesAddUp(v.amount, CampaignAt(s, v.campaign).holdbackBps);
  }

  /** A pending reservation is covered by the reserved budget of its campaign. */
  lemma ReservationCovered(s: State, r: ReservationID)
    requires Valid(s) && r in s.reservations && !s.reservations[r].settled
    ensures s.reservations[r].amount <= CampaignAt(s, s.reservations[r].campaign).reserved
  {
    hide Sum, Owed;
    var id := s.reservations[r].campaign;
    var m := Pending(s.reservations, id);
    assert Nonnegative(m);
    SumBounds(m, r);
    assert CampaignAt(s, id).reserved == Sum(m);
  }

  lemma SettleReserved(s: State, tx: Tx)
    requires Valid(s) && tx.call.Settle? && Accepted(s, tx)
    ensures ReservedRight(Effect(s, tx)) && ReservationsRight(Effect(s, tx))
  {
    hide Sum, Owed, Pending, Immediate;
    var r, t := tx.call.reservation, Effect(s, tx);
    forall c
      ensures CampaignAt(t, c).reserved == Sum(Pending(t.reservations, c))
    {
      PendingUpdate(s.reservations, r, t.reservations[r], c);
      PendingAt(s, r, c);
    }
  }

  lemma SettleValid(s: State, tx: Tx)
    requires Valid(s) && tx.call.Settle? && Accepted(s, tx)
    ensures Valid(Effect(s, tx))
  {
    hide Sum, Owed, Pending, ReservedRight, Immediate;
    var r, t := tx.call.reservation, Effect(s, tx);
    var v := s.reservations[r];
    ReservationCovered(s, r);
    SettleCreditsAll(s, tx);
    SettleReserved(s, tx);
    OwedUpdate(s.campaigns, v.campaign, t.campaigns[v.campaign]);
    OwedAt(s, v.campaign);
    SumUpdate(s.publisherBalances, v.publisher, Get(s.publisherBalances, v.publisher) + v.amount);
  }

  lemma ReleaseValid(s: State, tx: Tx)
    requires Valid(s) && tx.call.Release? && Accepted(s, tx)
    ensures Valid(Effect(s, tx))
  {
    hide Sum, Owed, Pending;
    var r, t := tx.call.reservation, Effect(s, tx);
    var v := s.reservations[r];
    ReservationCovered(s, r);
    OwedUpdate(s.campaigns, v.campaign, t.campaigns[v.campaign]);
    OwedAt(s, v.campaign);
    forall c
      ensures CampaignAt(t, c).reserved == Sum(Pending(t.reservations, c))
    {
      PendingRemove(s.reservations, r, c);
      PendingAt(s, r, c);
    }
  }

  /** The contract can always pay what it owes to one publisher or one campaign. */
  lemma Solvent(s: State, a: Address, id: CampaignID)
    requires Valid(s)
    ensures Get(s.publisherBalances, a) <= Get(s.ausd, SELF)
    ensures CampaignAt(s, id).available + CampaignAt(s, id).reserved <= Get(s.ausd, SELF)
  {
    hide Sum, Pending, ReservedRight;
    assert Nonnegative(Owed(s.campaigns));
    SumNonnegative(Owed(s.campaigns));
    SumNonnegative(s.publisherBalances);
    SumBounds(s.publisherBalances, a);
    SumBounds(Owed(s.campaigns), id);
    OwedAt(s, id);
  }

  lemma WithdrawPublisherValid(s: State, tx: Tx)
    requires Valid(s) && RealSender(tx) && tx.call.WithdrawPublisher? && Accepted(s, tx)
    ensures Valid(Effect(s, tx))
  {
    hide Sum, Owed, Pending, Moved, ReservedRight;
    Solvent(s, tx.sender, CampaignID(0));
    MovedMeaning(s.ausd, SELF, tx.sender, Get(s.publisherBalances, tx.sender));
    SumUpdate(s.publisherBalances, tx.sender, 0);
    ReservedKept(s, Effect(s, tx));
  }

  lemma WithdrawCampaignValid(s: State, tx: Tx)
    requires Valid(s) && RealSender(tx) && tx.call.WithdrawCampaign? && Accepted(s, tx)
    ensures Valid(Effect(s, tx))
  {
    hide Sum, Owed, Pending, Moved, ReservedRight;
    var id, t := tx.call.id, Effect(s, tx);
    Solvent(s, tx.sender, id);
    MovedMeaning(s.ausd, SELF, tx.sender, CampaignAt(s, id).available);
    OwedUpdate(s.campaigns, id, t.campaigns[id]);
    OwedAt(s, id);
    ReservedKept(s, t);
  }

  lemma PauseValid(s: State, tx: Tx)
    requires Valid(s) && RealSender(tx) && tx.call.Pause? && Accepted(s, tx)
    ensures Valid(Effect(s, tx))
  {
    hide Sum, Owed, Pending, ReservedRight;
    var id, t := tx.call.id, Effect(s, tx);
    OwedUpdate(s.campaigns, id, t.campaigns[id]);
    OwedAt(s, id);
    ReservedKept(s, t);
  }

  lemma TransferTokenValid(s: State, tx: Tx)
    requires Valid(s) && RealSender(tx) && tx.call.TransferToken? && Accepted(s, tx)
    ensures Valid(Effect(s, tx))
  {
    hide Sum, Owed, Pending, ReservedRight, Moved;
    MovedMeaning(s.ausd, tx.sender, tx.call.to, tx.call.amount);
    ReservedKept(s, Effect(s, tx));
  }

  lemma StepValid(s: State, tx: Tx)
    requires Valid(s) && RealSender(tx)
    ensures Valid(Step(s, tx))
  {
    hide Valid, Effect, Accepted;
    if Accepted(s, tx) {
      match tx.call
      case Fund(_, _, _, _) => FundValid(s, tx);
      case Reserve(_, _, _, _, _) => ReserveValid(s, tx);
      case Settle(_) => SettleValid(s, tx);
      case Release(_) => ReleaseValid(s, tx);
      case WithdrawPublisher => WithdrawPublisherValid(s, tx);
      case WithdrawCampaign(_) => WithdrawCampaignValid(s, tx);
      case Pause(_) => PauseValid(s, tx);
      case TransferToken(_, _) => TransferTokenValid(s, tx);
    }
  }

  // -------------------------------------------------------------------------------------------
  // Whole runs

  /** A fresh contract, on a token whose supply fits 256 bits. */
  ghost predicate Init(s: State) {
    && s.campaigns == map[] && s.reservations == map[] && s.publisherBalances == map[]
    && Nonnegative(s.ausd) && Sum(s.ausd) < TWO_TO_THE_256 && s.unsolicited == Get(s.ausd, SELF)
  }

  function Run(s: State, txs: seq<Tx>): State {
    if txs == [] then s else Step(Run(s, txs[..|txs| - 1]), txs[|txs| - 1])
  }

  predicate RealSenders(txs: seq<Tx>) {
    forall i :: 0 <= i < |txs| ==> RealSender(txs[i])
  }

  lemma NothingPending()
    ensures Owed(map[]) == map[] && forall c :: Pending(map[], c) == map[]
  {
  }

  lemma InitValid(s: State)
    requires Init(s)
    ensures Valid(s)
  {
    hide Sum, Pending, Owed;
    SumNone<ReservationID>();
    SumNone<CampaignID>();
    SumNone<Address>();
    NothingPending();
    SumNonnegative(s.ausd);
  }

  /** Escrow solvency over every run: the contract's AUSD is what it owes to campaigns and publishers
      plus what was sent to it outside funding; budgets add up, reserved budgets are the unsettled
      reservations, and nothing is ever negative. */
  lemma {:induction false} RunSolvency(s: State, txs: seq<Tx>)
    requires Init(s) && RealSenders(txs)
    ensures Valid(Run(s, txs))
    decreases |txs|
  {
    hide Valid, Step;
    if txs == [] {
      InitValid(s);
    } else {
      RunSolvency(s, txs[..|txs| - 1]);
      StepValid(Run(s, txs[..|txs| - 1]), txs[|txs| - 1]);
    }
  }

  /** AUSD that a run sends to the contract directly. */
  function DirectlySent(s: State, txs: seq<Tx>): int {
    if txs == [] then 0 else
    var n := |txs| - 1;
    DirectlySent(s, txs[..n]) +
    if Accepted(Run(s, txs[..n]), txs[n]) && txs[n].call.TransferToken? && txs[n].call.to == SELF
    then txs[n].call.amount else 0
  }

  lemma UnsolicitedStep(s: State, tx: Tx)
    ensures Step(s, tx).unsolicited == s.unsolicited +
      if Accepted(s, tx) && tx.call.TransferToken? && tx.call.to == SELF then tx.call.amount else 0
  {
  }

  /** What the contract holds beyond its liabilities is exactly what was there before and what was sent
      to it directly; without either, balance and liabilities are equal at every point of every run. */
  lemma {:induction false} SurplusIsUnsolicited(s: State, txs: seq<Tx>)
    requires Init(s) && RealSenders(txs)
    ensures Get(Run(s, txs).ausd, SELF) == Liabilities(Run(s, txs)) + Get(s.ausd, SELF) + DirectlySent(s, txs)
    decreases |txs|
  {
    hide Step, Accepted, Sum, Pending, Owed, ReservedRight;
    RunSolvency(s, txs);
    UnsolicitedRun(s, txs);
  }

  lemma {:induction false} UnsolicitedRun(s: State, txs: seq<Tx>)
    ensures Run(s, txs).unsolicited == s.unsolicited + DirectlySent(s, txs)
    decreases |txs|
  {
    hide Step, Accepted;
    if txs != [] {
      UnsolicitedRun(s, txs[..|txs| - 1]);
      UnsolicitedStep(Run(s, txs[..|txs| - 1]), txs[|txs| - 1]);
    }
  }

  datatype Phase = Absent | Open | Settled

  function PhaseOf(s: State, r: ReservationID): Phase {
    if r !in s.reservations then Absent else if s.reservations[r].settled then Settled else Open
  }

  /** A reservation is opened, then settled or released, and a settled one stays settled. */
  lemma PhaseStep(s: State, tx: Tx, r: ReservationID)
    requires Valid(s)
    ensures var before, after := PhaseOf(s, r), PhaseOf(Step(s, tx), r);
      if !Accepted(s, tx) then after == before
      else if tx.call.Reserve? && tx.call.reservation == r then before == Absent && after == Open
      else if tx.call.Settle? && tx.call.reservation == r then before == Open && after == Settled
      else if tx.call.Release? && tx.call.reservation == r then before == Open && after == Absent
      else after == before
  {
    hide Sum, Owed, Pending, ReservedRight, Moved, Immediate;
  }

  /** How often the reservation was created, settled and released in a run. */
  ghost function Happened(s: State, txs: seq<Tx>, r: ReservationID): (int, int, int) {
    if txs == [] then (0, 0, 0) else
    var n := |txs| - 1;
    var (created, settled, released) := Happened(s, txs[..n], r);
    var tx := txs[n];
    if !Accepted(Run(s, txs[..n]), tx) then (created, settled, released)
    else if tx.call.Reserve? && tx.call.reservation == r then (created + 1, settled, released)
    else if tx.call.Settle? && tx.call.reservation == r then (created, settled + 1, released)
    else if tx.call.Release? && tx.call.reservation == r then (created, settled, released + 1)
    else (created, settled, released)
  }

  /** Reservation lifecycle over every run: each instance is settled or released at most once and
      never both, an ID is settled at most once ever, and only the last instance can be open. */
  lemma {:induction false} ReservationLifecycle(s: State, txs: seq<Tx>, r: ReservationID)
    requires Init(s) && RealSenders(txs)
    ensures var (created, settled, released) := Happened(s, txs, r);
      && created == settled + released + (if PhaseOf(Run(s, txs), r) == Open then 1 else 0)
      && 0 <= settled <= 1
      && (settled == 1 <==> PhaseOf(Run(s, txs), r) == Settled)
    decreases |txs|
  {
    hide Valid, Step, Accepted, Init;
    if txs == [] {
      NothingReserved(s);
    } else {
      var n := |txs| - 1;
      ReservationLifecycle(s, txs[..n], r);
      RunSolvency(s, txs[..n]);
      PhaseStep(Run(s, txs[..n]), txs[n], r);
    }
  }

  lemma NothingReserved(s: State)
    requires Init(s)
    ensures s.reservations == map[]
  {
    hide Sum;
  }

  /** While a reservation is open, settling and releasing are never both possible, and exactly one of
      them is, whoever asks, unless the payout product overflows 256 bits before the expiry. */
  lemma SettleOrRelease(s: State, r: ReservationID, now: nat, a: Address, b: Address)
    requires Valid(s) && PhaseOf(s, r) == Open
    ensures var v := s.reservations[r];
      var settle, release := Accepted(s, Tx(Settle(r), a, now)), Accepted(s, Tx(Release(r), b, now));
      && !(settle && release)
      && (release <==> now > v.expires)
      && (settle || release <==>
            now > v.expires
            || v.amount * (10000 - CampaignAt(s, v.campaign).holdbackBps) < TWO_TO_THE_256)
  {
    hide Sum, Owed, Pending, ReservedRight;
  }

  const TWO_TO_THE_255: int := 0x8000000000000000_0000000000000000_0000000000000000_0000000000000000

  /** The overflow can be reached: a reservation of 2^255 can be neither settled nor released in time. */
  lemma HugeReservationIsStuck(now: nat)
    requires now <= 10
    ensures
      var a, c, r := Address(2), CampaignID(7), ReservationID(9);
      var start := State(map[], map[], map[], map[a := TWO_TO_THE_255], 0);
      var funded := Step(start, Tx(Fund(c, TWO_TO_THE_255, 0, true), a, 0));
      var s := Step(funded, Tx(Reserve(r, c, a, TWO_TO_THE_255, 10), a, 0));
      && PhaseOf(s, r) == Open
      && !Accepted(s, Tx(Settle(r), a, now)) && !Accepted(s, Tx(Release(r), a, now))
  {
    var a, c, r := Address(2), CampaignID(7), ReservationID(9);
    var start := State(map[], map[], map[], map[a := TWO_TO_THE_255], 0);
    var funded := Step(start, Tx(Fund(c, TWO_TO_THE_255, 0, true), a, 0));
    assert CampaignAt(funded, c).available == TWO_TO_THE_255;
  }

  /** A reservation can be settled until its time to live is over, unless its payout product overflows,
      and released from then on. */
  lemma ReservationWindow(s: State, tx: Tx, now: nat, a: Address)
    requires Valid(s) && tx.call.Reserve? && Accepted(s, tx)
    ensures Accepted(Effect(s, tx), Tx(Settle(tx.call.reservation), a, now)) <==>
      && now <= tx.now + tx.call.ttl
      && tx.call.amount * (10000 - CampaignAt(s, tx.call.id).holdbackBps) < TWO_TO_THE_256
    ensures Accepted(Effect(s, tx), Tx(Release(tx.call.reservation), a, now)) <==> now > tx.now + tx.call.ttl
  {
    hide Sum, Owed, Pending, ReservedRight;
  }

  ghost predicate Paused(s: State, id: CampaignID) {
    id in s.campaigns && !s.campaigns[id].active
  }

  lemma PauseTakesHold(s: State, tx: Tx)
    requires Valid(s) && RealSender(tx) && tx.call.Pause? && Accepted(s, tx)
    ensures Paused(Effect(s, tx), tx.call.id)
  {
    hide Sum, Owed, Pending, ReservedRight;
  }

  lemma PauseStep(s: State, tx: Tx, id: CampaignID)
    requires Valid(s) && Paused(s, id)
    ensures Paused(Step(s, tx), id)
    ensures tx.call.Reserve? && tx.call.id == id ==> !Accepted(s, tx)
  {
    hide Sum, Owed, Pending, ReservedRight, Moved, Immediate;
    assert CampaignRight(s.campaigns[id]);
  }

  /** A paused campaign stays paused: no later run reserves from it, not even after new funding. */
  lemma {:induction false} PausedForGood(s: State, txs: seq<Tx>, id: CampaignID)
    requires Valid(s) && Paused(s, id) && RealSenders(txs)
    ensures Valid(Run(s, txs)) && Paused(Run(s, txs), id)
    ensures forall tx: Tx :: tx.call.Reserve? && tx.call.id == id ==> !Accepted(Run(s, txs), tx)
    decreases |txs|
  {
    hide Valid, Step, Accepted, Paused;
    if txs != [] {
      var t, tx := Run(s, txs[..|txs| - 1]), txs[|txs| - 1];
      PausedForGood(s, txs[..|txs| - 1], id);
      PauseStep(t, tx, id);
      StepValid(t, tx);
    }
    forall tx: Tx | tx.call.Reserve? && tx.call.id == id
      ensures !Accepted(Run(s, txs), tx)
    {
      PauseStep(Run(s, txs), tx, id);
    }
  }

  lemma TermsStep(s: State, tx: Tx, id: CampaignID)
    requires Valid(s) && id in s.campaigns
    ensures id in Step(s, tx).campaigns
    ensures Step(s, tx).campaigns[id].advertiser == s.campaigns[id].advertiser
    ensures Step(s, tx).campaigns[id].holdbackBps == s.campaigns[id].holdbackBps
  {
    hide Sum, Owed, Pending, ReservedRight, Moved, Immediate;
    assert CampaignRight(s.campaigns[id]);
  }

  /** Owner and holdback of a campaign are settled by its first funding, for every later run. */
  lemma {:induction false} TermsForGood(s: State, txs: seq<Tx>, id: CampaignID)
    requires Valid(s) && id in s.campaigns && RealSenders(txs)
    ensures Valid(Run(s, txs)) && id in Run(s, txs).campaigns
    ensures Run(s, txs).campaigns[id].advertiser == s.campaigns[id].advertiser
    ensures Run(s, txs).campaigns[id].holdbackBps == s.campaigns[id].holdbackBps
    decreases |txs|
  {
    hide Valid, Step;
    if txs != [] {
      var t, tx := Run(s, txs[..|txs| - 1]), txs[|txs| - 1];
      TermsForGood(s, txs[..|txs| - 1], id);
      TermsStep(t, tx, id);
      StepValid(t, tx);
    }
  }
}
