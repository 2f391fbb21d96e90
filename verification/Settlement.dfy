/** The escrow object of the chain VM and the settlement service on top of it. */
module Settlement {
  import opened Numbers
  import opened RealSums
  import opened GoEscrow
  import opened SettlementRuns

  class EscrowManager {
    var campaigns: map<string, Campaign>
    var reservations: map<string, Reservation>
    var publisherBalances: map<string, real>
    var releases: seq<PendingRelease>
    var ledger: map<string, real>
    /** The reservations paid, one entry for each payment. */
    ghost var paid: seq<string>

    ghost function View(): State
      reads this
    {
      State(campaigns, reservations, publisherBalances, releases, ledger, paid)
    }

    constructor (ledger: map<string, real>)
      requires Nonnegative(ledger)
      ensures Valid(View()) && View() == Opening(ledger)
    {
      hide Valid;
      campaigns, reservations, publisherBalances, releases := map[], map[], map[], [];
      this.ledger, paid := ledger, [];
      new;
      StartValid(ledger);
    }

    /** The exchange's asset transfer, for AUSD. */
    method TransferAUSD(from: string, to: string, amount: real) returns (ok: bool)
      modifies this`ledger
      ensures ok == CanTransfer(old(ledger), from, amount) == (0.0 < amount <= Get(old(ledger), from))
      ensures ledger == if ok then Transferred(old(ledger), from, to, amount) else old(ledger)
    {
      if amount <= 0.0 {
        return false;
      }
      if from !in ledger || ledger[from] < amount {
        return false;
      }
      ledger := ledger[from := ledger[from] - amount];
      ledger := ledger[to := Get(ledger, to) + amount];
      ok := true;
    }

    method FundCampaign(id: string, advertiser: string, amount: real, bps: nat) returns (ok: bool)
      requires Valid(View())
      modifies this
      ensures Valid(View())
      ensures ok == CanFund(old(View()), id, advertiser, amount, bps)
      ensures View() == if ok then Funded(old(View()), id, advertiser, amount, bps) else old(View())
    {
      hide Valid, Transferred;
      if CanFund(View(), id, advertiser, amount, bps) {
        FundKeeps(View(), id, advertiser, amount, bps);
      }
      if amount <= 0.0 || bps > 2000 {
        return false;
      }
      var campaign := Campaign(advertiser, 0.0, 0.0, 0.0, 0.0, true, bps, []);
      if id in campaigns {
        campaign := campaigns[id];
        if campaign.advertiser != advertiser {
          return false;
        }
      }
      ok := TransferAUSD(advertiser, ESCROW, amount);
      if ok {
        campaign := campaign.(total := campaign.total + amount);
        campaign := campaign.(available := campaign.available + amount);
        campaigns := campaigns[id := campaign];
      }
    }

    method ReserveBudget(r: string, id: string, publisher: string, amount: real, ttl: nat, now: int) returns (ok: bool)
      requires Valid(View())
      modifies this
      ensures Valid(View())
      ensures ok == CanReserve(old(View()), r, id, amount, ttl)
      ensures View() == if ok then ReservedBy(old(View()), r, id, publisher, amount, now + ttl) else old(View())
    {
      hide Valid;
      if ttl > 10 || amount <= 0.0 || r in reservations {
        return false;
      }
      if id !in campaigns || !campaigns[id].active || campaigns[id].available < amount {
        return false;
      }
      ReserveKeeps(View(), r, id, publisher, amount, ttl, now + ttl);
      var campaign := campaigns[id];
      campaign := campaign.(available := campaign.available - amount);
      campaign := campaign.(reserved := campaign.reserved + amount);
      campaigns := campaigns[id := campaign];
      reservations := reservations[r := Reservation(id, publisher, amount, now + ttl, false)];
      ok := true;
    }

    method SettleReceipt(r: string, proofLength: nat, now: int) returns (ok: bool)
      requires Valid(View())
      modifies this
      ensures Valid(View())
      ensures ok == CanSettle(old(View()), r, proofLength, now)
      ensures View() == if ok then SettledBy(old(View()), r, now) else old(View())
      ensures ok ==> r !in old(paid) && paid == old(paid) + [r]
    {
      hide Valid;
      if r !in reservations {
        return false;
      }
      var reservation := reservations[r];
      if reservation.settled || now > reservation.expires || proofLength < 32 {
        return false;
      }
      SettleKeeps(View(), r, proofLength, now);
      assert reservation.campaign in campaigns by { CampaignKnown(View(), r); }
      var campaign := campaigns[reservation.campaign];
      var holdback := reservation.amount * (campaign.holdbackBps as real) / 10000.0;
      var immediate := reservation.amount - holdback;
      assert holdback == Holdback(reservation.amount, campaign.holdbackBps);
      campaign := campaign.(reserved := campaign.reserved - reservation.amount);
      campaign := campaign.(spent := campaign.spent + reservation.amount);
      var publisher := reservation.publisher;
      publisherBalances := publisherBalances[publisher := Get(publisherBalances, publisher) + immediate];
      if holdback > 0.0 {
        releases := releases + [PendingRelease(publisher, holdback, now + 48 * 3600)];
      }
      campaigns := campaigns[reservation.campaign := campaign];
      reservations := reservations[r := reservation.(settled := true)];
      paid := paid + [r];
      ok := true;
    }

    method CreatePGDeal(id: string, dealID: string, publisher: string, impressions: nat, cpm: real, penalty: real)
      returns (ok: bool)
      requires Valid(View())
      modifies this
      ensures Valid(View())
      ensures ok == CanDeal(old(View()), id, DealEscrow(impressions, cpm, penalty))
      ensures View() == if ok
                        then DealtBy(old(View()), id, Deal(dealID, publisher, DealEscrow(impressions, cpm, penalty)))
                        else old(View())
      ensures impressions < TWO_TO_THE_63 ==>
        && (ok <==> id in old(campaigns)
                    && (impressions as real) * (cpm * (1.0 + penalty)) <= 1000.0 * old(campaigns)[id].available)
        && (ok ==> id in campaigns && 1000.0 * (old(campaigns)[id].available - campaigns[id].available)
                                      == (impressions as real) * (cpm * (1.0 + penalty)))
    {
      hide Valid, DealEscrow;
      var escrowAmount := DealEscrow(impressions, cpm, penalty);
      if impressions < TWO_TO_THE_63 {
        DealLocks(View(), id, Deal(dealID, publisher, escrowAmount), impressions, cpm, penalty);
      }
      if id !in campaigns || campaigns[id].available < escrowAmount {
        return false;
      }
      DealKeeps(View(), id, Deal(dealID, publisher, escrowAmount));
      var campaign := campaigns[id];
      campaign := campaign.(available := campaign.available - escrowAmount);
      campaign := campaign.(deals := campaign.deals + [Deal(dealID, publisher, escrowAmount)]);
      campaigns := campaigns[id := campaign];
      ok := true;
    }
  }

  datatype Reply = Refused | Recorded | PaidNow | NotPaid

  class AUSDSettlement {
    const escrow: EscrowManager
    var witnesses: Witnesses
    var realTimePayouts: nat

    ghost function View(): System
      reads this, escrow
    {
      System(Books(escrow.View(), realTimePayouts), witnesses)
    }

    /** The escrow is in order, and no window is kept without proofs. */
    ghost predicate Valid()
      reads this, escrow
    {
      GoEscrow.Valid(escrow.View()) && forall b :: b in witnesses ==> witnesses[b] != []
    }

    constructor (escrow: EscrowManager)
      requires GoEscrow.Valid(escrow.View())
      ensures Valid() && this.escrow == escrow && View() == System(Books(escrow.View(), 0), map[])
    {
      this.escrow := escrow;
      witnesses, realTimePayouts := map[], 0;
    }

    /** A won impression reserves its price for two seconds. */
    method ProcessImpressionWin(r: string, id: string, publisher: string, price: real, now: int) returns (ok: bool)
      requires Valid()
      modifies escrow
      ensures Valid() && ok == CanReserve(old(escrow.View()), r, id, price, 2)
      ensures View() == Next(old(View()), Win(r, id, publisher, price, now))
    {
      hide GoEscrow.Valid;
      ok := escrow.ReserveBudget(r, id, publisher, price, 2, now);
    }

    /** Settles one proof of sufficient viewability; the verification hash has 64 characters. */
    method SettleImpression(proof: Proof, now: int) returns (ok: bool)
      requires Valid()
      modifies escrow, this`realTimePayouts
      ensures Valid() && ok == Payable(old(escrow.View()), proof, now)
      ensures View().books == Tried(old(View().books), proof, now)
    {
      hide GoEscrow.Valid, SettledBy, CanSettle;
      if proof.score < 70.0 {
        return false;
      }
      ok := escrow.SettleReceipt(proof.reservationID, 64, now);
      if ok {
        realTimePayouts := realTimePayouts + 1;
      }
    }

    /** Records a proof that is valid when checked, and settles it at once if its window already holds
        another one. */
    method SubmitDeliveryProof(proof: Proof, checked: int, now: int) returns (reply: Reply)
      requires Valid()
      modifies escrow, this
      ensures Valid() && View() == Next(old(View()), Prove(proof, checked, now))
      ensures reply.Refused? <==> !ValidProof(proof, checked)
      ensures reply.Recorded? <==> ValidProof(proof, checked) && old(Held(witnesses, BucketOf(proof.timestamp))) == []
      ensures reply.PaidNow? <==> Pays(old(View()), Prove(proof, checked, now), proof.reservationID)
    {
      hide GoEscrow.Valid, Tried, Payable;
      if !ValidProof(proof, checked) {
        return Refused;
      }
      var bucket := BucketOf(proof.timestamp);
      witnesses := witnesses[bucket := Held(witnesses, bucket) + [proof]];
      if |witnesses[bucket]| < 2 {
        return Recorded;
      }
      var ok := SettleImpression(proof, now);
      reply := if ok then PaidNow else NotPaid;
    }

    /** Tries to settle every proof held, and clears them. A reservation is paid exactly if a proof held
        entitled it to payment, however often it was proven. */
    method BatchSettlement(clock: Clock) returns (ghost buckets: seq<Bucket>)
      requires Valid()
      modifies escrow, this
      ensures Valid() && witnesses == map[]
      ensures Lists(buckets, old(witnesses)) && View() == Next(old(View()), Batch(buckets, clock))
      ensures forall r :: r in escrow.paid <==>
        || r in old(escrow.paid)
        || exists b :: b in old(witnesses) && Proven(r, b, old(witnesses)[b], old(escrow.View()), clock)
      ensures forall b, k :: b in old(witnesses) && 0 <= k < |old(witnesses)[b]| ==>
        !Payable(escrow.View(), old(witnesses)[b][k], clock(b, k))
    {
      hide GoEscrow.Valid, TriedAll, TriedBuckets, Proven, Payable, Enumerates, Next;
      var rest := witnesses.Keys;
      buckets := [];
      ghost var done := {};
      BatchBegins(View().books, witnesses, clock);
      while rest != {}
        invariant Valid() && rest == witnesses.Keys && done !! rest && done + rest == old(witnesses).Keys
        invariant forall b :: b in rest ==> witnesses[b] == old(witnesses)[b]
        invariant Enumerates(buckets, done)
        invariant View().books == TriedBuckets(old(View().books), old(witnesses), buckets, clock)
        decreases |rest|
      {
        var bucket :| bucket in rest;
        EnumeratesMore(buckets, done, bucket);
        rest, done := rest - {bucket}, done + {bucket};
        TriedMore(old(View().books), old(witnesses), buckets, bucket, clock);
        SettleWindow(bucket, clock);
        buckets := buckets + [bucket];
      }
      assert done == old(witnesses).Keys;
      BatchPaysAll(old(View()), buckets, clock);
      BatchClears(old(View()), buckets, clock);
    }

    method SettleWindow(bucket: Bucket, clock: Clock)
      requires Valid() && bucket in witnesses
      modifies escrow, this
      ensures Valid() && witnesses == old(witnesses) - {bucket}
      ensures View().books == TriedAll(old(View().books), bucket, old(witnesses)[bucket], clock)
    {
      hide GoEscrow.Valid, TriedAll;
      if |witnesses[bucket]| == 0 {
        assert false;
      }
      SettleAll(bucket, witnesses[bucket], clock);
      witnesses := witnesses - {bucket};
    }

    method SettleAll(bucket: Bucket, proofs: seq<Proof>, clock: Clock)
      requires Valid()
      modifies escrow, this`realTimePayouts
      ensures Valid() && View().books == TriedAll(old(View().books), bucket, proofs, clock)
    {
      hide GoEscrow.Valid, Tried, Payable;
      assert proofs[..0] == [];
      for i := 0 to |proofs|
        invariant Valid() && View().books == TriedAll(old(View().books), bucket, proofs[..i], clock)
      {
        var _ := SettleImpression(proofs[i], clock(bucket, i));
        assert proofs[..i + 1][..i] == proofs[..i];
      }
      assert proofs[..|proofs|] == proofs;
    }
  }

  lemma BatchBegins(b: Books, witnesses: Witnesses, clock: Clock)
    ensures Enumerates([], {}) && TriedBuckets(b, witnesses, [], clock) == b
  {
  }

  lemma TriedMore(b: Books, witnesses: Witnesses, buckets: seq<Bucket>, bucket: Bucket, clock: Clock)
    ensures TriedBuckets(b, witnesses, buckets + [bucket], clock)
         == TriedAll(TriedBuckets(b, witnesses, buckets, clock), bucket, Held(witnesses, bucket), clock)
  {
    assert (buckets + [bucket])[..|buckets|] == buckets;
  }

  lemma BatchPaysAll(sys: System, buckets: seq<Bucket>, clock: Clock)
    requires GoEscrow.Valid(sys.books.escrow) && Lists(buckets, sys.witnesses)
    ensures Next(sys, Batch(buckets, clock)) == System(TriedBuckets(sys.books, sys.witnesses, buckets, clock), map[])
    ensures forall r :: r in Next(sys, Batch(buckets, clock)).books.escrow.paid <==>
      || r in sys.books.escrow.paid
      || exists b :: b in sys.witnesses && Proven(r, b, sys.witnesses[b], sys.books.escrow, clock)
  {
    hide GoEscrow.Valid, Proven, TriedBuckets;
    forall r
      ensures r in Next(sys, Batch(buckets, clock)).books.escrow.paid <==>
        || r in sys.books.escrow.paid
        || exists b :: b in sys.witnesses && Proven(r, b, sys.witnesses[b], sys.books.escrow, clock)
    {
      BatchPays(sys, buckets, clock, r);
    }
  }

  /** No proof of the batch would be paid if it were tried again. */
  lemma BatchClears(sys: System, buckets: seq<Bucket>, clock: Clock)
    requires GoEscrow.Valid(sys.books.escrow) && Lists(buckets, sys.witnesses)
    ensures forall b, k :: b in sys.witnesses && 0 <= k < |sys.witnesses[b]| ==>
      !Payable(Next(sys, Batch(buckets, clock)).books.escrow, sys.witnesses[b][k], clock(b, k))
  {
    hide GoEscrow.Valid, Payable, Later, TriedBuckets;
    var s, t := sys.books.escrow, Next(sys, Batch(buckets, clock)).books.escrow;
    forall b, k | b in sys.witnesses && 0 <= k < |sys.witnesses[b]|
      ensures !Payable(t, sys.witnesses[b][k], clock(b, k))
    {
      var p := sys.witnesses[b][k];
      TriedBucketsPays(sys.books, sys.witnesses, buckets, clock, p.reservationID);
      BatchPays(sys, buckets, clock, p.reservationID);
      PayableLater(s, t, p, clock(b, k));
      if Payable(s, p, clock(b, k)) {
        assert Proven(p.reservationID, b, sys.witnesses[b], s, clock);
      }
    }
  }
}
