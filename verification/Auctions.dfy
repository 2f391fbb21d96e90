/** Second-price auctions with a reserve: the sort-based exchange auction and the enclave's one-pass
    scan, both against one description of the mechanism. */
module Auctions {
  import opened Sorting
  import opened BigBytes

  datatype Bid = Bid(bidder: string, value: nat)

  datatype Outcome = Outcome(winner: string, winningBid: nat, clearingPrice: nat)

  datatype Result = NoValidBids | Sold(outcome: Outcome)

  /** The bids that reach the reserve. */
  function Eligible(bids: seq<Bid>, reserve: nat): seq<Bid> {
    if bids == [] then [] else
    Eligible(bids[..|bids| - 1], reserve) +
    if bids[|bids| - 1].value >= reserve then [bids[|bids| - 1]] else []
  }

  /** `price` is the largest value among `s`, or the reserve if `s` is empty. */
  ghost predicate PriceOf(s: multiset<Bid>, reserve: nat, price: nat) {
    && (forall b :: b in s ==> b.value <= price)
    && (if s == multiset{} then price == reserve else exists b :: b in s && b.value == price)
  }

  /** The mechanism, open to every way of breaking ties: some highest eligible bid wins and pays the
      best of the other eligible bids, or the reserve. */
  ghost predicate SecondPrice(bids: seq<Bid>, reserve: nat, w: Bid, price: nat) {
    var s := multiset(Eligible(bids, reserve));
    && w in s && (forall b :: b in s ==> b.value <= w.value)
    && PriceOf(s - multiset{w}, reserve, price)
  }

  // -------------------------------------------------------------------------------------------
  // The sort-based auction

  function Descending(): Bid -> real { (b: Bid) => -(b.value as real) }

  lemma SortedFirst(s: seq<Bid>)
    requires SortedBy(s, Descending()) && s != []
    ensures s[0] in multiset(s) && forall b :: b in multiset(s) ==> b.value <= s[0].value
  {
    assert s[0] in s;
    forall b | b in multiset(s)
      ensures b.value <= s[0].value
    {
      var i :| 0 <= i < |s| && s[i] == b;
      assert Descending()(s[0]) <= Descending()(s[i]);
    }
  }

  lemma SortedRest(s: seq<Bid>)
    requires SortedBy(s, Descending()) && s != []
    ensures SortedBy(s[1..], Descending()) && multiset(s) - multiset{s[0]} == multiset(s[1..])
  {
    assert s == [s[0]] + s[1..];
    forall i, j | 0 <= i <= j < |s[1..]|
      ensures Descending()(s[1..][i]) <= Descending()(s[1..][j])
    {
      assert Descending()(s[i + 1]) <= Descending()(s[j + 1]);
    }
  }

  lemma SortedTopTwo(s: seq<Bid>, reserve: nat)
    requires SortedBy(s, Descending()) && s != []
    ensures forall b :: b in multiset(s) ==> b.value <= s[0].value
    ensures PriceOf(multiset(s) - multiset{s[0]}, reserve, if |s| > 1 then s[1].value else reserve)
  {
    hide SortedBy;
    SortedFirst(s);
    SortedRest(s);
    if |s| > 1 {
      SortedFirst(s[1..]);
    } else {
      assert s[1..] == [];
    }
  }

  datatype SealedBid = SealedBid(bidder: string, commitment: seq<Byte>, rangeProof: seq<Byte>)

  /** The value read from the first eight bytes of a commitment, if it has that many. */
  method DecryptBid(sealed: SealedBid) returns (ok: bool, value: nat)
    ensures ok <==> |sealed.commitment| >= 8
    ensures ok ==> value == SetBytes(sealed.commitment[..8]) % 10000
  {
    if |sealed.commitment| < 8 {
      return false, 0;
    }
    value := 0;
    var bound := 1;
    for i := 0 to 8
      invariant value == SetBytes(sealed.commitment[..i]) && value < bound
      invariant bound == [1, 0x100, 0x1_0000, 0x100_0000, 0x1_0000_0000, 0x100_0000_0000,
                          0x1_0000_0000_0000, 0x100_0000_0000_0000, 0x1_0000_0000_0000_0000][i]
    {
      assert sealed.commitment[..i + 1][..i] == sealed.commitment[..i];
      value := (value * 256) % 0x1_0000_0000_0000_0000 + sealed.commitment[i];
      bound := bound * 256;
    }
    value := value % 10000;
    ok := true;
  }

  /** The bids that can be decrypted, with their values. */
  function Opened(sealed: seq<SealedBid>): seq<Bid> {
    if sealed == [] then [] else
    var last := sealed[|sealed| - 1];
    Opened(sealed[..|sealed| - 1]) +
    if |last.commitment| >= 8 then [Bid(last.bidder, SetBytes(last.commitment[..8]) % 10000)] else []
  }

  class Auction {
    const endTime: int
    const reserve: nat
    var bids: seq<SealedBid>
    var outcome: Result

    constructor (now: int, duration: int, reserve: nat)
      ensures endTime == now + duration && this.reserve == reserve && bids == [] && outcome == NoValidBids
    {
      endTime, this.reserve := now + duration, reserve;
      bids, outcome := [], NoValidBids;
    }

    /** Refuses late bids, and bids whose range proof comes without a commitment. */
    method SubmitBid(bid: SealedBid, now: int) returns (ok: bool)
      modifies this`bids
      ensures ok <==> now <= endTime && (bid.rangeProof == [] || bid.commitment != [])
      ensures bids == if ok then old(bids) + [bid] else old(bids)
    {
      if now > endTime {
        return false;
      }
      if |bid.rangeProof| > 0 {
        if !(|bid.rangeProof| > 0 && |bid.commitment| > 0) {
          return false;
        }
      }
      bids := bids + [bid];
      ok := true;
    }

    /** Decrypts, filters, sorts, and sells to the first bid at the value of the second. */
    method RunAuction() returns (result: Result, ghost w: Bid)
      modifies this`outcome
      ensures result.NoValidBids? <==> Eligible(Opened(bids), reserve) == []
      ensures result.Sold? ==>
        && SecondPrice(Opened(bids), reserve, w, result.outcome.clearingPrice)
        && result.outcome.winner == w.bidder && result.outcome.winningBid == w.value
      ensures outcome == if result.Sold? then result else old(outcome)
    {
      hide PriceOf, SortedBy, SetBytes;
      w := Bid("", 0);
      if |bids| == 0 {
        return NoValidBids, w;
      }
      var validBids := [];
      for i := 0 to |bids|
        invariant validBids == Eligible(Opened(bids[..i]), reserve) && outcome == old(outcome)
      {
        assert bids[..i + 1] == bids[..i] + [bids[i]];
        OpenedAppend(bids[..i], bids[i]);
        var ok, value := DecryptBid(bids[i]);
        if ok {
          EligibleAppend(Opened(bids[..i]), Bid(bids[i].bidder, value), reserve);
          if value >= reserve {
            validBids := validBids + [Bid(bids[i].bidder, value)];
          }
        } else {
          assert Opened(bids[..i + 1]) == Opened(bids[..i]);
        }
      }
      assert bids[..|bids|] == bids;
      if |validBids| == 0 {
        return NoValidBids, w;
      }
      var sorted := Sort(validBids, Descending());
      SameMembers(sorted, validBids);
      SortedTopTwo(sorted, reserve);
      var winner := sorted[0];
      assert winner in sorted;
      var clearingPrice := reserve;
      if |sorted| > 1 {
        clearingPrice := sorted[1].value;
      }
      w := winner;
      result := Sold(Outcome(winner.bidder, winner.value, clearingPrice));
      outcome := result;
    }
  }

  lemma OpenedAppend(sealed: seq<SealedBid>, b: SealedBid)
    ensures Opened(sealed + [b]) == Opened(sealed) +
      if |b.commitment| >= 8 then [Bid(b.bidder, SetBytes(b.commitment[..8]) % 10000)] else []
  {
    assert (sealed + [b])[..|sealed|] == sealed;
  }

  lemma EligibleAppend(bids: seq<Bid>, b: Bid, reserve: nat)
    ensures Eligible(bids + [b], reserve) == Eligible(bids, reserve) + if b.value >= reserve then [b] else []
  {
    assert (bids + [b])[..|bids|] == bids;
  }

  // -------------------------------------------------------------------------------------------
  // The enclave's scan

  datatype MaybeBid = Nil | Just(bid: Bid)

  /** `t` is a largest bid of `s`, or nothing if `s` is empty. */
  ghost predicate Largest(s: multiset<Bid>, t: MaybeBid) {
    if s == multiset{} then t.Nil? else t.Just? && t.bid in s && forall b :: b in s ==> b.value <= t.bid.value
  }

  ghost predicate TopTwo(s: multiset<Bid>, highest: MaybeBid, second: MaybeBid) {
    && Largest(s, highest)
    && (if highest.Just? then Largest(s - multiset{highest.bid}, second) else second.Nil?)
  }

  /** One more bid is the largest if it exceeds the largest so far, which stays the largest otherwise. */
  lemma LargestStep(s: multiset<Bid>, t: MaybeBid, b: Bid)
    requires Largest(s, t)
    ensures t.Nil? || b.value >= t.bid.value ==> Largest(s + multiset{b}, Just(b))
    ensures t.Just? && b.value <= t.bid.value ==> Largest(s + multiset{b}, t)
  {
  }

  lemma TopTwoStep(s: multiset<Bid>, highest: MaybeBid, second: MaybeBid, b: Bid)
    requires TopTwo(s, highest, second)
    ensures highest.Nil? || b.value > highest.bid.value ==> TopTwo(s + multiset{b}, Just(b), highest)
    ensures highest.Just? && b.value <= highest.bid.value && (second.Nil? || b.value > second.bid.value) ==>
      TopTwo(s + multiset{b}, highest, Just(b))
    ensures highest.Just? && b.value <= highest.bid.value && second.Just? && b.value <= second.bid.value ==>
      TopTwo(s + multiset{b}, highest, second)
  {
    hide Largest;
    LargestStep(s, highest, b);
    assert s + multiset{b} - multiset{b} == s;
    if highest.Just? {
      LargestStep(s - multiset{highest.bid}, second, b);
      LargestIsThere(s, highest);
      assert s + multiset{b} - multiset{highest.bid} == s - multiset{highest.bid} + multiset{b};
    }
  }

  lemma LargestIsThere(s: multiset<Bid>, t: MaybeBid)
    requires Largest(s, t) && t.Just?
    ensures t.bid in s
  {
  }

  /** The enclave's auction; without an eligible bid it reports zeros. */
  method RunSecondPriceAuction(bids: seq<Bid>, reserve: nat) returns (outcome: Outcome, ghost w: Bid)
    ensures Eligible(bids, reserve) == [] ==> outcome == Outcome("", 0, 0)
    ensures Eligible(bids, reserve) != [] ==>
      && SecondPrice(bids, reserve, w, outcome.clearingPrice)
      && outcome.winner == w.bidder && outcome.winningBid == w.value
  {
    hide TopTwo;
    w := Bid("", 0);
    if |bids| == 0 {
      return Outcome("", 0, 0), w;
    }
    var highest, second := Nil, Nil;
    NoTop();
    for i := 0 to |bids|
      invariant TopTwo(multiset(Eligible(bids[..i], reserve)), highest, second)
    {
      assert bids[..i + 1] == bids[..i] + [bids[i]];
      EligibleAppend(bids[..i], bids[i], reserve);
      var bid := bids[i];
      if bid.value < reserve {
        assert Eligible(bids[..i + 1], reserve) == Eligible(bids[..i], reserve);
        continue;
      }
      TopTwoStep(multiset(Eligible(bids[..i], reserve)), highest, second, bid);
      if highest.Nil? || bid.value > highest.bid.value {
        second := highest;
        highest := Just(bid);
      } else if second.Nil? || bid.value > second.bid.value {
        second := Just(bid);
      }
    }
    assert bids[..|bids|] == bids;
    TopTwoIsSecondPrice(bids, reserve, highest, second);
    if highest.Nil? {
      return Outcome("", 0, 0), w;
    }
    var clearingPrice := reserve;
    if second.Just? {
      clearingPrice := second.bid.value;
    }
    w := highest.bid;
    outcome := Outcome(highest.bid.bidder, highest.bid.value, clearingPrice);
  }

  lemma NoTop()
    ensures TopTwo(multiset{}, Nil, Nil)
  {
  }

  lemma TopTwoIsSecondPrice(bids: seq<Bid>, reserve: nat, highest: MaybeBid, second: MaybeBid)
    requires TopTwo(multiset(Eligible(bids, reserve)), highest, second)
    ensures highest.Nil? <==> Eligible(bids, reserve) == []
    ensures highest.Just? ==>
      SecondPrice(bids, reserve, highest.bid, if second.Just? then second.bid.value else reserve)
  {
    hide Eligible;
    var e := Eligible(bids, reserve);
    assert e != [] ==> e[0] in multiset(e);
  }

  // -------------------------------------------------------------------------------------------
  // Theorems about the mechanism

  lemma PriceUnique(s: multiset<Bid>, reserve: nat, p: nat, p': nat)
    requires PriceOf(s, reserve, p) && PriceOf(s, reserve, p')
    ensures p == p'
  {
  }

  /** Winning value and clearing price do not depend on how ties are broken, so the sort-based auction
      and the scan agree on both. */
  lemma OutcomeUnique(bids: seq<Bid>, reserve: nat, w: Bid, p: nat, w': Bid, p': nat)
    requires SecondPrice(bids, reserve, w, p) && SecondPrice(bids, reserve, w', p')
    ensures w.value == w'.value && p == p'
  {
    hide Eligible;
    if w == w' {
      PriceUnique(multiset(Eligible(bids, reserve)) - multiset{w}, reserve, p, p');
    }
  }

  /** The bidder pays no more than it bid and no less than the reserve. */
  lemma PriceBetweenReserveAndBid(bids: seq<Bid>, reserve: nat, w: Bid, p: nat)
    requires SecondPrice(bids, reserve, w, p)
    ensures reserve <= p <= w.value
  {
    hide PriceOf;
    EligibleReachReserve(bids, reserve);
    PriceBounds(multiset(Eligible(bids, reserve)), reserve, w, p);
  }

  lemma PriceBounds(s: multiset<Bid>, reserve: nat, w: Bid, p: nat)
    requires w in s && (forall b :: b in s ==> reserve <= b.value <= w.value) && PriceOf(s - multiset{w}, reserve, p)
    ensures reserve <= p <= w.value
  {
  }

  lemma {:induction false} EligibleReachReserve(bids: seq<Bid>, reserve: nat)
    ensures forall b :: b in multiset(Eligible(bids, reserve)) ==> b.value >= reserve && b in bids
    decreases |bids|
  {
    if bids != [] {
      EligibleReachReserve(bids[..|bids| - 1], reserve);
    }
  }

  /** What a bidder who values the slot at `value` can end up with. */
  ghost predicate CanEarn(bids: seq<Bid>, reserve: nat, me: string, value: nat, u: int) {
    || (Eligible(bids, reserve) == [] && u == 0)
    || exists w, p :: SecondPrice(bids, reserve, w, p) && u == if w.bidder == me then value - p else 0
  }

  lemma {:induction false} EligibleConcat(a: seq<Bid>, b: seq<Bid>, reserve: nat)
    ensures Eligible(a + b, reserve) == Eligible(a, reserve) + Eligible(b, reserve)
    decreases |b|
  {
    if b == [] {
      assert a + b == a;
    } else {
      var n := |b| - 1;
      assert a + b == (a + b[..n]) + [b[n]] && b == b[..n] + [b[n]];
      EligibleConcat(a, b[..n], reserve);
      EligibleAppend(a + b[..n], b[n], reserve);
      EligibleAppend(b[..n], b[n], reserve);
    }
  }

  /** The eligible bids of the others, and one's own if it reaches the reserve. */
  lemma EligibleWithBid(before: seq<Bid>, mine: Bid, after: seq<Bid>, reserve: nat)
    ensures multiset(Eligible(before + [mine] + after, reserve))
         == multiset(Eligible(before + after, reserve)) + if mine.value >= reserve then multiset{mine} else multiset{}
  {
    EligibleConcat(before + [mine], after, reserve);
    EligibleAppend(before, mine, reserve);
    EligibleConcat(before, after, reserve);
  }

  /** With the best of the others at `best`: whoever bids `mine` earns `value - best` or nothing. */
  lemma Earnings(before: seq<Bid>, mine: Bid, after: seq<Bid>, reserve: nat, value: nat, u: int, best: nat)
    requires forall b :: b in before + after ==> b.bidder != mine.bidder
    requires PriceOf(multiset(Eligible(before + after, reserve)), reserve, best)
    requires CanEarn(before + [mine] + after, reserve, mine.bidder, value, u)
    ensures u == 0 || u == value - best
    ensures mine.value == value ==> u >= 0 && u >= value - best
  {
    hide Eligible, PriceOf, SecondPrice;
    var o := multiset(Eligible(before + after, reserve));
    var bids := before + [mine] + after;
    EligibleWithBid(before, mine, after, reserve);
    if Eligible(bids, reserve) == [] && u == 0 {
      NoEligible(o, multiset(Eligible(bids, reserve)), reserve, mine, best);
    } else {
      var w, p :| SecondPrice(bids, reserve, w, p) && u == if w.bidder == mine.bidder then value - p else 0;
      OthersOnly(before + after, mine, reserve);
      if w.bidder == mine.bidder {
        WinningBid(bids, o, reserve, mine, w, p, best);
        PriceBetweenReserveAndBid(bids, reserve, w, p);
      } else {
        LosingBid(bids, o, reserve, mine, w, p, best);
      }
    }
  }

  lemma OthersOnly(others: seq<Bid>, mine: Bid, reserve: nat)
    requires forall b :: b in others ==> b.bidder != mine.bidder
    ensures forall b :: b in multiset(Eligible(others, reserve)) ==> b.bidder != mine.bidder && b.value >= reserve
  {
    hide Eligible;
    EligibleReachReserve(others, reserve);
  }

  lemma WinningBid(bids: seq<Bid>, o: multiset<Bid>, reserve: nat, mine: Bid, w: Bid, p: nat, best: nat)
    requires SecondPrice(bids, reserve, w, p) && PriceOf(o, reserve, best) && w.bidder == mine.bidder
    requires multiset(Eligible(bids, reserve)) == o + if mine.value >= reserve then multiset{mine} else multiset{}
    requires forall b :: b in o ==> b.bidder != mine.bidder
    ensures w == mine && p == best
  {
    hide Eligible, PriceOf;
    assert w == mine;
    assert o + multiset{mine} - multiset{mine} == o;
    PriceUnique(o, reserve, p, best);
  }

  lemma LosingBid(bids: seq<Bid>, o: multiset<Bid>, reserve: nat, mine: Bid, w: Bid, p: nat, best: nat)
    requires SecondPrice(bids, reserve, w, p) && PriceOf(o, reserve, best) && w.bidder != mine.bidder
    requires multiset(Eligible(bids, reserve)) == o + if mine.value >= reserve then multiset{mine} else multiset{}
    requires forall b :: b in o ==> b.value >= reserve
    ensures mine.value <= best
  {
    hide Eligible;
    assert w in o;
    if mine.value >= reserve {
      assert mine in multiset(Eligible(bids, reserve));
    }
  }

  lemma NoEligible(o: multiset<Bid>, s: multiset<Bid>, reserve: nat, mine: Bid, best: nat)
    requires PriceOf(o, reserve, best) && s == multiset{}
    requires s == o + if mine.value >= reserve then multiset{mine} else multiset{}
    ensures mine.value < best
  {
    assert o == multiset{};
  }

  /** Bidding one's true value is weakly dominant: for every list of bids of the others, every position
      in it, every other bid and every way of breaking ties in either auction. */
  lemma TruthfulnessDominates(before: seq<Bid>, after: seq<Bid>, reserve: nat, me: string, value: nat, other: nat,
                              u: int, u': int)
    requires forall b :: b in before + after ==> b.bidder != me
    requires CanEarn(before + [Bid(me, value)] + after, reserve, me, value, u)
    requires CanEarn(before + [Bid(me, other)] + after, reserve, me, value, u')
    ensures u >= u' && u >= 0
  {
    hide Eligible, CanEarn;
    var best := PriceExists(multiset(Eligible(before + after, reserve)), reserve);
    Earnings(before, Bid(me, value), after, reserve, value, u, best);
    Earnings(before, Bid(me, other), after, reserve, value, u', best);
  }

  lemma {:induction false} PriceExists(s: multiset<Bid>, reserve: nat) returns (p: nat)
    ensures PriceOf(s, reserve, p)
    decreases |s|
  {
    if s == multiset{} {
      return reserve;
    }
    var b :| b in s;
    var rest := s - multiset{b};
    assert s == rest + multiset{b};
    var q := PriceExists(rest, reserve);
    p := if rest != multiset{} && q > b.value then q else b.value;
  }
}
