/** Where the escrow contract's AUSD comes from and where it goes, over every run of calls. */
module EscrowMoney {
  import opened MapSums
  import opened Escrow

  // -------------------------------------------------------------------------------------------
  // Campaign budgets

  /** What this transaction, sent by `a`, pays into the campaign. */
  function PaysIn(s: State, tx: Tx, id: CampaignID, a: Address): int {
    if Accepted(s, tx) && tx.sender == a && tx.call.Fund? && tx.call.id == id then tx.call.amount else 0
  }

  /** What this transaction, sent by `a`, takes out of the campaign's budget. */
  function TakesOut(s: State, tx: Tx, id: CampaignID, a: Address): int {
    if Accepted(s, tx) && tx.sender == a && tx.call.WithdrawCampaign? && tx.call.id == id
    then CampaignAt(s, id).available else 0
  }

  function PaidIn(s: State, txs: seq<Tx>, id: CampaignID, a: Address): int {
    if txs == [] then 0 else
    var n := |txs| - 1;
    PaidIn(s, txs[..n], id, a) + PaysIn(Run(s, txs[..n]), txs[n], id, a)
  }

  function TakenOut(s: State, txs: seq<Tx>, id: CampaignID, a: Address): int {
    if txs == [] then 0 else
    var n := |txs| - 1;
    TakenOut(s, txs[..n], id, a) + TakesOut(Run(s, txs[..n]), txs[n], id, a)
  }

  /** A campaign answers to one address, whoever funded it first: its total changes, and it is paused, only
      by transactions of that address. */
  lemma OwnerActs(s: State, tx: Tx, id: CampaignID)
    requires Valid(s) && RealSender(tx)
    ensures var c, d := CampaignAt(s, id), CampaignAt(Step(s, tx), id);
      && (d.total != c.total || (c.active && !d.active) ==> tx.sender == d.advertiser)
      && (d.total > c.total ==> tx.call.Fund?) && (d.total < c.total ==> tx.call.WithdrawCampaign?)
      && (c.active && !d.active ==> tx.call.Pause?)
      && (c.advertiser != ZERO ==> d.advertiser == c.advertiser)
  {
    hide Sum, Owed, Pending, ReservedRight, Immediate, Moved;
    assert id in s.campaigns ==> CampaignRight(s.campaigns[id]);
  }

  /** What a transaction means for the budget of a campaign and the address `a`. */
  ghost predicate OwnerRight(s: State, tx: Tx, id: CampaignID, a: Address) {
    var c, d := CampaignAt(s, id), CampaignAt(Step(s, tx), id);
    && (c.advertiser != ZERO ==> d.advertiser == c.advertiser) && (c.advertiser == ZERO ==> c.total == 0)
    && (a == d.advertiser ==> d.total == c.total + PaysIn(s, tx, id, a) - TakesOut(s, tx, id, a))
    && (a != d.advertiser || a == ZERO ==> PaysIn(s, tx, id, a) == 0 == TakesOut(s, tx, id, a))
  }

  lemma OwnerStep(s: State, tx: Tx, id: CampaignID, a: Address)
    requires Valid(s) && RealSender(tx)
    ensures OwnerRight(s, tx, id, a)
  {
    hide Valid, OwnerRight, Step;
    if tx.call.Fund? {
      OwnerFunds(s, tx, id, a);
    } else if tx.call.WithdrawCampaign? {
      OwnerWithdraws(s, tx, id, a);
    } else {
      OwnerRests(s, tx, id, a);
    }
  }

  lemma OwnerFunds(s: State, tx: Tx, id: CampaignID, a: Address)
    requires Valid(s) && RealSender(tx) && tx.call.Fund?
    ensures OwnerRight(s, tx, id, a)
  {
    hide Sum, Owed, Pending, ReservedRight, Moved;
    assert id in s.campaigns ==> CampaignRight(s.campaigns[id]);
  }

  lemma OwnerWithdraws(s: State, tx: Tx, id: CampaignID, a: Address)
    requires Valid(s) && RealSender(tx) && tx.call.WithdrawCampaign?
    ensures OwnerRight(s, tx, id, a)
  {
    hide Sum, Owed, Pending, ReservedRight, Moved;
    assert id in s.campaigns ==> CampaignRight(s.campaigns[id]);
  }

  lemma OwnerRests(s: State, tx: Tx, id: CampaignID, a: Address)
    requires Valid(s) && RealSender(tx) && !tx.call.Fund? && !tx.call.WithdrawCampaign?
    ensures OwnerRight(s, tx, id, a)
  {
    hide Sum, Owed, Pending, ReservedRight, Moved, Immediate;
    assert id in s.campaigns ==> CampaignRight(s.campaigns[id]);
  }

  /** Over every run, a campaign's total is what its advertiser paid into it less what the advertiser took
      out; nobody else ever pays in or takes out anything. */
  lemma {:induction false} TotalIsTheAdvertisers(s: State, txs: seq<Tx>, id: CampaignID, a: Address)
    requires Init(s) && RealSenders(txs)
    ensures var c := CampaignAt(Run(s, txs), id);
      && (a == c.advertiser ==> c.total == PaidIn(s, txs, id, a) - TakenOut(s, txs, id, a))
      && (a != c.advertiser || a == ZERO ==> PaidIn(s, txs, id, a) == 0 == TakenOut(s, txs, id, a))
    decreases |txs|
  {
    hide Valid, Step, Accepted, Init, PaysIn, TakesOut;
    if txs == [] {
      FreshCampaign(s, id);
    } else {
      var n := |txs| - 1;
      TotalIsTheAdvertisers(s, txs[..n], id, a);
      RunSolvency(s, txs[..n]);
      OwnerStep(Run(s, txs[..n]), txs[n], id, a);
    }
  }

  /** The first accepted funding of the campaign; any other transaction if there is none. */
  function FirstFunding(s: State, txs: seq<Tx>, id: CampaignID): Tx {
    if txs == [] then Tx(WithdrawPublisher, ZERO, 0) else
    var n := |txs| - 1;
    if FirstFunding(s, txs[..n], id).call.Fund? then FirstFunding(s, txs[..n], id)
    else if Accepted(Run(s, txs[..n]), txs[n]) && txs[n].call.Fund? && txs[n].call.id == id then txs[n]
    else Tx(WithdrawPublisher, ZERO, 0)
  }

  /** An accepted pause of the campaign is among the transactions. */
  predicate PausedIn(s: State, txs: seq<Tx>, id: CampaignID) {
    txs != [] &&
    var n := |txs| - 1;
    PausedIn(s, txs[..n], id) || (Accepted(Run(s, txs[..n]), txs[n]) && txs[n].call.Pause? && txs[n].call.id == id)
  }

  /** The terms of the campaign are those of this funding. */
  ghost predicate OnTerms(c: Campaign, first: Tx, id: CampaignID) {
    && first.call.Fund? && first.call.id == id && c.advertiser == first.sender
    && c.holdbackBps == first.call.holdbackBps
  }

  lemma TermsStart(s: State, tx: Tx, id: CampaignID)
    requires Valid(s) && RealSender(tx)
    ensures id in s.campaigns ==>
      && id in Step(s, tx).campaigns
      && Step(s, tx).campaigns[id].active
         == (s.campaigns[id].active && !(Accepted(s, tx) && tx.call.Pause? && tx.call.id == id))
    ensures id !in s.campaigns ==>
      && (id in Step(s, tx).campaigns <==> Accepted(s, tx) && tx.call.Fund? && tx.call.id == id)
      && (id in Step(s, tx).campaigns ==>
            OnTerms(Step(s, tx).campaigns[id], tx, id) && Step(s, tx).campaigns[id].active)
      && !(Accepted(s, tx) && tx.call.Pause? && tx.call.id == id)
  {
    hide Sum, Owed, Pending, ReservedRight, Immediate, Moved;
    assert id in s.campaigns ==> CampaignRight(s.campaigns[id]);
  }

  /** Over every run, a campaign exists exactly if it was funded; its advertiser and holdback are those of the
      first funding, and it is active exactly until its first accepted pause. */
  lemma {:induction false} TermsOfFirstFunding(s: State, txs: seq<Tx>, id: CampaignID)
    requires Init(s) && RealSenders(txs)
    ensures id in Run(s, txs).campaigns <==> FirstFunding(s, txs, id).call.Fund?
    ensures id in Run(s, txs).campaigns ==>
      && OnTerms(Run(s, txs).campaigns[id], FirstFunding(s, txs, id), id)
      && (Run(s, txs).campaigns[id].active <==> !PausedIn(s, txs, id))
    ensures PausedIn(s, txs, id) ==> id in Run(s, txs).campaigns
    decreases |txs|
  {
    hide Valid, Step, Accepted, Init;
    if txs == [] {
      FreshCampaign(s, id);
    } else {
      var n := |txs| - 1;
      TermsOfFirstFunding(s, txs[..n], id);
      RunSolvency(s, txs[..n]);
      TermsStart(Run(s, txs[..n]), txs[n], id);
      if id in Run(s, txs[..n]).campaigns {
        TermsStep(Run(s, txs[..n]), txs[n], id);
      }
    }
  }

  lemma FreshCampaign(s: State, id: CampaignID)
    requires Init(s)
    ensures CampaignAt(s, id) == NEW_CAMPAIGN && id !in s.campaigns
  {
    hide Sum;
  }

  // -------------------------------------------------------------------------------------------
  // The token ledger

  /** An address other than the contract loses AUSD only by transactions of its own, a funding among them only
      with its approval. */
  lemma OnlyOwnSpending(s: State, tx: Tx, a: Address)
    requires Valid(s) && RealSender(tx) && a != SELF && Get(Step(s, tx).ausd, a) < Get(s.ausd, a)
    ensures tx.sender == a && (tx.call.TransferToken? || (tx.call.Fund? && tx.call.approved))
  {
    hide Sum, Owed, Pending, ReservedRight, Immediate;
    Solvent(s, tx.sender, if tx.call.WithdrawCampaign? then tx.call.id else CampaignID(0));
  }

  /** What `a` gains in a step that takes AUSD out of the contract. */
  function Gained(s: State, t: State, a: Address): int {
    if Get(t.ausd, SELF) < Get(s.ausd, SELF) then Get(t.ausd, a) - Get(s.ausd, a) else 0
  }

  /** What `a` received from the contract in a run, by the token ledger. */
  function Received(s: State, txs: seq<Tx>, a: Address): int {
    if txs == [] then 0 else
    var n := |txs| - 1;
    Received(s, txs[..n], a) + Gained(Run(s, txs[..n]), Run(s, txs), a)
  }

  /** The last accepted call that made this reservation, with its time. */
  function ReservedBy(s: State, txs: seq<Tx>, r: ReservationID): (tx: Tx)
  {
    if txs == [] then Tx(WithdrawPublisher, ZERO, 0) else
    var n := |txs| - 1;
    if Accepted(Run(s, txs[..n]), txs[n]) && txs[n].call.Reserve? && txs[n].call.reservation == r then txs[n]
    else ReservedBy(s, txs[..n], r)
  }

  /** What settling earns `a`: the amount reserved, if the call that made the reservation named `a`. */
  function Earns(s: State, tx: Tx, reserve: Tx, a: Address): int {
    if Accepted(s, tx) && tx.call.Settle? && reserve.call.Reserve? && reserve.call.publisher == a
    then reserve.call.amount else 0
  }

  function Earned(s: State, txs: seq<Tx>, a: Address): int {
    if txs == [] then 0 else
    var n := |txs| - 1;
    Earned(s, txs[..n], a) +
    if txs[n].call.Settle?
    then Earns(Run(s, txs[..n]), txs[n], ReservedBy(s, txs[..n], txs[n].call.reservation), a) else 0
  }

  /** What `a` takes back from a campaign of its own. */
  function TakesBack(s: State, tx: Tx, a: Address): int {
    if Accepted(s, tx) && tx.call.WithdrawCampaign? && tx.sender == a && CampaignAt(s, tx.call.id).advertiser == a
    then CampaignAt(s, tx.call.id).available else 0
  }

  function TakenBack(s: State, txs: seq<Tx>, a: Address): int {
    if txs == [] then 0 else
    var n := |txs| - 1;
    TakenBack(s, txs[..n], a) + TakesBack(Run(s, txs[..n]), txs[n], a)
  }

  /** A reservation on record says what the call that made it said, and expires within ten seconds of it. */
  ghost predicate Recorded(s: State, r: ReservationID, reserve: Tx) {
    && reserve.call.Reserve? && reserve.call.reservation == r && r in s.reservations
    && s.reservations[r].campaign == reserve.call.id && s.reservations[r].publisher == reserve.call.publisher
    && s.reservations[r].amount == reserve.call.amount
    && s.reservations[r].expires == reserve.now + reserve.call.ttl <= reserve.now + 10
  }

  lemma RecordStep(s: State, tx: Tx, r: ReservationID)
    requires Valid(s)
    ensures r in Step(s, tx).reservations ==>
      if Accepted(s, tx) && tx.call.Reserve? && tx.call.reservation == r then Recorded(Step(s, tx), r, tx)
      else r in s.reservations && Step(s, tx).reservations[r].(settled := false) == s.reservations[r].(settled := false)
  {
    hide Valid, Immediate, Moved;
  }

  /** Over every run, each reservation on record is what the last accepted call for it asked for. */
  lemma {:induction false} RecordsTheCall(s: State, txs: seq<Tx>, r: ReservationID)
    requires Init(s) && RealSenders(txs)
    ensures r in Run(s, txs).reservations ==> Recorded(Run(s, txs), r, ReservedBy(s, txs, r))
    decreases |txs|
  {
    hide Valid, Step, Accepted, Init;
    if txs == [] {
      NothingReserved(s);
    } else {
      var n := |txs| - 1;
      RecordsTheCall(s, txs[..n], r);
      RunSolvency(s, txs[..n]);
      RecordStep(Run(s, txs[..n]), txs[n], r);
    }
  }

  /** In one step: what leaves the contract goes to the sender, out of its own earnings or its own campaign. */
  ghost predicate MoneyRight(s: State, tx: Tx, reserve: Tx, a: Address) {
    Gained(s, Step(s, tx), a) + Get(Step(s, tx).publisherBalances, a)
    == Get(s.publisherBalances, a) + Earns(s, tx, reserve, a) + TakesBack(s, tx, a)
  }

  lemma MoneyStep(s: State, tx: Tx, reserve: Tx, a: Address)
    requires Valid(s) && RealSender(tx) && a != SELF
    requires tx.call.Settle? && tx.call.reservation in s.reservations ==> Recorded(s, tx.call.reservation, reserve)
    ensures MoneyRight(s, tx, reserve, a)
  {
    hide Valid, MoneyRight, Effect, Accepted, Recorded;
    if !Accepted(s, tx) {
      NoMoney(s, tx, reserve, a);
    } else if tx.call.Settle? {
      SettleMoney(s, tx, reserve, a);
    } else if tx.call.WithdrawCampaign? || tx.call.WithdrawPublisher? {
      WithdrawMoney(s, tx, reserve, a);
    } else {
      KeptMoney(s, tx, reserve, a);
    }
  }

  lemma NoMoney(s: State, tx: Tx, reserve: Tx, a: Address)
    requires !Accepted(s, tx)
    ensures MoneyRight(s, tx, reserve, a)
  {
  }

  lemma SettleMoney(s: State, tx: Tx, reserve: Tx, a: Address)
    requires Valid(s) && tx.call.Settle? && Accepted(s, tx)
    requires tx.call.reservation in s.reservations ==> Recorded(s, tx.call.reservation, reserve)
    ensures MoneyRight(s, tx, reserve, a)
  {
    hide Valid, Immediate;
    SettleCreditsAll(s, tx);
  }

  lemma WithdrawMoney(s: State, tx: Tx, reserve: Tx, a: Address)
    requires Valid(s) && RealSender(tx) && a != SELF && Accepted(s, tx)
    requires tx.call.WithdrawCampaign? || tx.call.WithdrawPublisher?
    ensures MoneyRight(s, tx, reserve, a)
  {
    hide Valid;
    if tx.call.WithdrawCampaign? {
      Solvent(s, tx.sender, tx.call.id);
    }
  }

  lemma KeptMoney(s: State, tx: Tx, reserve: Tx, a: Address)
    requires RealSender(tx) && Accepted(s, tx)
    requires !tx.call.Settle? && !tx.call.WithdrawCampaign? && !tx.call.WithdrawPublisher?
    ensures MoneyRight(s, tx, reserve, a)
  {
  }

  /** Over every run and for every address: what it received from the contract, together with the balance it
      can still withdraw, is exactly what was settled for reservations whose calls named it and what it took
      back from campaigns of its own. */
  lemma {:induction false} ReceivedWasEarned(s: State, txs: seq<Tx>, a: Address)
    requires Init(s) && RealSenders(txs) && a != SELF
    ensures Received(s, txs, a) + Get(Run(s, txs).publisherBalances, a) == Earned(s, txs, a) + TakenBack(s, txs, a)
    decreases |txs|
  {
    hide Valid, Step, Accepted, Init, Gained, Earns, TakesBack, Recorded;
    if txs == [] {
      NothingEarned(s, a);
    } else {
      var n := |txs| - 1;
      ReceivedWasEarned(s, txs[..n], a);
      RunSolvency(s, txs[..n]);
      var reserve := txs[n];
      if txs[n].call.Settle? {
        reserve := ReservedBy(s, txs[..n], txs[n].call.reservation);
        RecordsTheCall(s, txs[..n], txs[n].call.reservation);
      } else {
        EarnsNothing(Run(s, txs[..n]), txs[n], reserve, a);
      }
      MoneyStep(Run(s, txs[..n]), txs[n], reserve, a);
    }
  }

  lemma EarnsNothing(s: State, tx: Tx, reserve: Tx, a: Address)
    requires !tx.call.Settle?
    ensures Earns(s, tx, reserve, a) == 0
  {
  }

  lemma NothingEarned(s: State, a: Address)
    requires Init(s)
    ensures Get(s.publisherBalances, a) == 0
  {
    hide Sum;
  }

  // -------------------------------------------------------------------------------------------
  // Who can do what

  /** Nobody's money is stuck: a publisher with earnings can withdraw all of them at any time, an advertiser
      all of the available budget, and nobody can withdraw nothing. */
  lemma CanAlwaysWithdraw(s: State, a: Address, id: CampaignID, now: nat)
    requires Valid(s) && a != SELF && a != ZERO
    ensures var tx := Tx(WithdrawPublisher, a, now);
      && (Accepted(s, tx) <==> Get(s.publisherBalances, a) != 0)
      && Get(Step(s, tx).publisherBalances, a) == 0
      && Get(Step(s, tx).ausd, a) == Get(s.ausd, a) + Get(s.publisherBalances, a)
    ensures CampaignAt(s, id).advertiser == a ==>
      var tx := Tx(WithdrawCampaign(id), a, now);
      && (Accepted(s, tx) <==> CampaignAt(s, id).available != 0)
      && CampaignAt(Step(s, tx), id).available == 0
      && Get(Step(s, tx).ausd, a) == Get(s.ausd, a) + CampaignAt(s, id).available
  {
    hide Sum, Owed, Pending, ReservedRight;
    assert id in s.campaigns ==> CampaignRight(s.campaigns[id]);
    assert a in s.publisherBalances ==> s.publisherBalances[a] >= 0;
  }

  /** Over every run: a campaign can be funded by who funded it first, or by anybody before that, with any
      positive amount held and approved and a holdback of at most a fifth, while its total fits 256 bits. */
  lemma WhoCanFund(s: State, txs: seq<Tx>, tx: Tx)
    requires Init(s) && RealSenders(txs) && RealSender(tx) && tx.call.Fund?
    ensures var first := FirstFunding(s, txs, tx.call.id);
      Accepted(Run(s, txs), tx) <==>
        && 1 <= tx.call.amount <= Get(Run(s, txs).ausd, tx.sender) && tx.call.approved
        && 5 * tx.call.holdbackBps <= 10000
        && (!first.call.Fund? || first.sender == tx.sender)
        && PaidIn(s, txs, tx.call.id, tx.sender) - TakenOut(s, txs, tx.call.id, tx.sender) + tx.call.amount
           < TWO_TO_THE_256
  {
    hide Run, Init, PaidIn, TakenOut, FirstFunding, RealSenders, Sum, Owed, Pending, ReservedRight;
    RunSolvency(s, txs);
    assert tx.call.id in Run(s, txs).campaigns ==> CampaignRight(Run(s, txs).campaigns[tx.call.id]);
    TermsOfFirstFunding(s, txs, tx.call.id);
    TotalIsTheAdvertisers(s, txs, tx.call.id, tx.sender);
  }

  /** Over every run: anybody can reserve a positive amount within the available budget of a campaign that
      was funded and never paused, for at most ten seconds, under an ID that is neither open nor settled,
      while the expiry fits 256 bits. */
  lemma WhoCanReserve(s: State, txs: seq<Tx>, tx: Tx)
    requires Init(s) && RealSenders(txs) && tx.call.Reserve?
    ensures var t, call := Run(s, txs), tx.call;
      Accepted(t, tx) <==>
        && 1 <= call.amount <= CampaignAt(t, call.id).available && call.ttl <= 10 && tx.now + call.ttl < TWO_TO_THE_256
        && FirstFunding(s, txs, call.id).call.Fund? && !PausedIn(s, txs, call.id)
        && PhaseOf(t, call.reservation) == Absent
  {
    hide Run, Init, FirstFunding, PausedIn, RealSenders, Sum, Owed, Pending, ReservedRight;
    TermsOfFirstFunding(s, txs, tx.call.id);
    RunSolvency(s, txs);
  }
}
