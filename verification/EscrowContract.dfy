/** The escrow contract's storage and calls, statement by statement. Each call is one transaction:
    it either reverts, changing nothing, or has exactly the specified effect. */
module EscrowContract {
  import opened MapSums
  import opened Escrow

  class EscrowManager {
    var campaigns: map<CampaignID, Campaign>
    var reservations: map<ReservationID, Reservation>
    var publisherBalances: map<Address, int>
    /** The ledger of the AUSD token, a contract of its own. */
    var ausd: map<Address, int>
    ghost var unsolicited: int

    ghost function View(): State
      reads this
    {
      State(campaigns, reservations, publisherBalances, ausd, unsolicited)
    }

    /** A new contract on an existing token ledger. */
    constructor (ausd: map<Address, int>)
      requires Nonnegative(ausd) && Sum(ausd) < TWO_TO_THE_256
      ensures Init(View()) && Valid(View()) && this.ausd == ausd
    {
      hide Valid, Sum;
      campaigns, reservations, publisherBalances := map[], map[], map[];
      this.ausd := ausd;
      unsolicited := Get(ausd, SELF);
      new;
      InitValid(View());
    }

    function CampaignOf(id: CampaignID): Campaign
      reads this
    {
      if id in campaigns then campaigns[id] else NEW_CAMPAIGN
    }

    method Transfer(from: Address, to: Address, amount: int)
      modifies this`ausd
      ensures ausd == Moved(old(ausd), from, to, amount)
    {
      ausd := ausd[from := Get(ausd, from) - amount];
      ausd := ausd[to := Get(ausd, to) + amount];
    }

    method FundCampaign(sender: Address, now: nat, id: CampaignID, amount: nat, holdbackBps: nat, approved: bool)
      returns (ok: bool)
      requires Valid(View()) && RealSender(Tx(Fund(id, amount, holdbackBps, approved), sender, now))
      modifies this
      ensures ok == Accepted(old(View()), Tx(Fund(id, amount, holdbackBps, approved), sender, now))
      ensures View() == Step(old(View()), Tx(Fund(id, amount, holdbackBps, approved), sender, now)) && Valid(View())
    {
      hide Valid, Moved;
      StepValid(View(), Tx(Fund(id, amount, holdbackBps, approved), sender, now));
      if amount <= 0 || holdbackBps > 2000 {
        return false;
      }
      var campaign := CampaignOf(id);
      if campaign.advertiser == ZERO {
        campaign := campaign.(advertiser := sender, holdbackBps := holdbackBps, active := true);
      } else if campaign.advertiser != sender {
        return false;
      }
      if !approved || Get(ausd, sender) < amount || campaign.total + amount >= TWO_TO_THE_256 {
        return false;
      }
      Transfer(sender, SELF, amount);
      campaign := campaign.(total := campaign.total + amount);
      campaign := campaign.(available := campaign.available + amount);
      campaigns := campaigns[id := campaign];
      ok := true;
    }

    method ReserveBudget(sender: Address, now: nat, r: ReservationID, id: CampaignID, publisher: Address, amount: nat,
                         ttl: nat)
      returns (ok: bool)
      requires Valid(View()) && RealSender(Tx(Reserve(r, id, publisher, amount, ttl), sender, now))
      modifies this
      ensures ok == Accepted(old(View()), Tx(Reserve(r, id, publisher, amount, ttl), sender, now))
      ensures View() == Step(old(View()), Tx(Reserve(r, id, publisher, amount, ttl), sender, now)) && Valid(View())
    {
      hide Valid;
      StepValid(View(), Tx(Reserve(r, id, publisher, amount, ttl), sender, now));
      if ttl > 10 || amount <= 0 || (r in reservations && reservations[r].amount > 0) {
        return false;
      }
      var campaign := CampaignOf(id);
      if !campaign.active || campaign.available < amount || now + ttl >= TWO_TO_THE_256 {
        return false;
      }
      reservations := reservations[r := Reservation(id, publisher, amount, now + ttl, false)];
      campaign := campaign.(available := campaign.available - amount);
      campaign := campaign.(reserved := campaign.reserved + amount);
      campaigns := campaigns[id := campaign];
      ok := true;
    }

    /** Pays the immediate share and the holdback; together they are the reserved amount. */
    method SettleReceipt(sender: Address, now: nat, r: ReservationID) returns (ok: bool)
      requires Valid(View()) && RealSender(Tx(Settle(r), sender, now))
      modifies this
      ensures ok == Accepted(old(View()), Tx(Settle(r), sender, now))
      ensures View() == Step(old(View()), Tx(Settle(r), sender, now)) && Valid(View())
    {
      hide Valid;
      StepValid(View(), Tx(Settle(r), sender, now));
      if r !in reservations || reservations[r].amount <= 0 || reservations[r].settled || now > reservations[r].expires {
        return false;
      }
      var reservation := reservations[r];
      var campaign := CampaignOf(reservation.campaign);
      var product := reservation.amount * (10000 - campaign.holdbackBps);
      if product >= TWO_TO_THE_256 {
        return false;
      }
      var immediateAmount := product / 10000;
      var holdbackAmount := reservation.amount - immediateAmount;
      campaign := campaign.(reserved := campaign.reserved - reservation.amount);
      campaign := campaign.(spent := campaign.spent + reservation.amount);
      campaigns := campaigns[reservation.campaign := campaign];
      reservations := reservations[r := reservation.(settled := true)];
      var publisher := reservation.publisher;
      publisherBalances := publisherBalances[publisher := Get(publisherBalances, publisher) + immediateAmount];
      if holdbackAmount > 0 {
        publisherBalances := publisherBalances[publisher := Get(publisherBalances, publisher) + holdbackAmount];
      }
      ok := true;
    }

    method ReleaseExpiredReservation(sender: Address, now: nat, r: ReservationID) returns (ok: bool)
      requires Valid(View()) && RealSender(Tx(Release(r), sender, now))
      modifies this
      ensures ok == Accepted(old(View()), Tx(Release(r), sender, now))
      ensures View() == Step(old(View()), Tx(Release(r), sender, now)) && Valid(View())
    {
      hide Valid;
      StepValid(View(), Tx(Release(r), sender, now));
      if r !in reservations || reservations[r].amount <= 0 || reservations[r].settled
         || now <= reservations[r].expires {
        return false;
      }
      var reservation := reservations[r];
      var campaign := CampaignOf(reservation.campaign);
      campaign := campaign.(available := campaign.available + reservation.amount);
      campaign := campaign.(reserved := campaign.reserved - reservation.amount);
      campaigns := campaigns[reservation.campaign := campaign];
      reservations := reservations - {r};
      ok := true;
    }

    method WithdrawPublisherEarnings(sender: Address, now: nat) returns (ok: bool)
      requires Valid(View()) && RealSender(Tx(WithdrawPublisher, sender, now))
      modifies this
      ensures ok == Accepted(old(View()), Tx(WithdrawPublisher, sender, now))
      ensures View() == Step(old(View()), Tx(WithdrawPublisher, sender, now)) && Valid(View())
    {
      hide Valid, Moved;
      StepValid(View(), Tx(WithdrawPublisher, sender, now));
      var amount := Get(publisherBalances, sender);
      if amount <= 0 {
        return false;
      }
      publisherBalances := publisherBalances[sender := 0];
      Transfer(SELF, sender, amount);
      ok := true;
    }

    method WithdrawCampaignBudget(sender: Address, now: nat, id: CampaignID) returns (ok: bool)
      requires Valid(View()) && RealSender(Tx(WithdrawCampaign(id), sender, now))
      modifies this
      ensures ok == Accepted(old(View()), Tx(WithdrawCampaign(id), sender, now))
      ensures View() == Step(old(View()), Tx(WithdrawCampaign(id), sender, now)) && Valid(View())
    {
      hide Valid, Moved;
      StepValid(View(), Tx(WithdrawCampaign(id), sender, now));
      var campaign := CampaignOf(id);
      if campaign.advertiser != sender {
        return false;
      }
      var amount := campaign.available;
      if amount <= 0 {
        return false;
      }
      campaign := campaign.(available := 0);
      campaign := campaign.(total := campaign.total - amount);
      campaigns := campaigns[id := campaign];
      Transfer(SELF, sender, amount);
      ok := true;
    }

    method PauseCampaign(sender: Address, now: nat, id: CampaignID) returns (ok: bool)
      requires Valid(View()) && RealSender(Tx(Pause(id), sender, now))
      modifies this
      ensures ok == Accepted(old(View()), Tx(Pause(id), sender, now))
      ensures View() == Step(old(View()), Tx(Pause(id), sender, now)) && Valid(View())
    {
      hide Valid;
      StepValid(View(), Tx(Pause(id), sender, now));
      var campaign := CampaignOf(id);
      if campaign.advertiser != sender {
        return false;
      }
      campaigns := campaigns[id := campaign.(active := false)];
      ok := true;
    }
  }
}
