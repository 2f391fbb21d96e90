/** Clearing price and winners of a batch auction, from the list of matches. */
module Clearing {
  import opened Numbers
  import opened Orders
  import opened Sorting

  function Prices(matches: seq<MatchedOrder>): (s: seq<real>)
    ensures |s| == |matches| && forall i :: 0 <= i < |s| ==> s[i] == matches[i].price
  {
    seq(|matches|, i requires 0 <= i < |matches| => matches[i].price)
  }

  /** `p` stands at position n/2 of the sorted prices. */
  ghost predicate IsMedian(prices: seq<real>, p: real) {
    exists s :: SortedBy(s, Identity()) && multiset(s) == multiset(prices) && |prices| / 2 < |s| && p == s[|prices| / 2]
  }

  /** The middle price of the matches; zero if there are none. */
  method CalculateClearingPrice(matches: seq<MatchedOrder>) returns (price: real)
    ensures matches == [] ==> price == 0.0
    ensures matches != [] ==> IsMedian(Prices(matches), price)
  {
    if |matches| == 0 {
      return 0.0;
    }
    var prices := [];
    for i := 0 to |matches|
      invariant |prices| == i && forall k :: 0 <= k < i ==> prices[k] == matches[k].price
    {
      prices := prices + [matches[i].price];
    }
    assert prices == Prices(matches);
    var sorted := Sort(prices, Identity());
    SameMembers(sorted, prices);
    price := sorted[|sorted| / 2];
  }

  predicate Nondecreasing(matches: seq<MatchedOrder>) {
    forall i, j :: 0 <= i <= j < |matches| ==> matches[i].price <= matches[j].price
  }

  /** When matches come out cheapest first, sorting changes nothing: the median is the middle match. */
  lemma MedianIsMiddleMatch(matches: seq<MatchedOrder>, p: real)
    requires Nondecreasing(matches) && matches != []
    ensures IsMedian(Prices(matches), p) <==> p == matches[|matches| / 2].price
  {
    var prices := Prices(matches);
    assert SortedBy(prices, Identity());
    if IsMedian(prices, p) {
      var s :| SortedBy(s, Identity()) && multiset(s) == multiset(prices)
               && |prices| / 2 < |s| && p == s[|prices| / 2];
      SortedIsUnique(s, prices);
    }
  }

  /** The matches that reach the clearing price, in order. */
  function Winners(matches: seq<MatchedOrder>, clearing: real): seq<MatchedOrder> {
    if matches == [] then [] else
    Winners(matches[..|matches| - 1], clearing) +
    if matches[|matches| - 1].price >= clearing then [matches[|matches| - 1]] else []
  }

  function TotalQuantity(matches: seq<MatchedOrder>): nat {
    if matches == [] then 0 else TotalQuantity(matches[..|matches| - 1]) + matches[|matches| - 1].quantity
  }

  lemma VolumeStep(winners: seq<MatchedOrder>, m: MatchedOrder)
    ensures TotalQuantity(winners + [m]) % TWO_TO_THE_64
         == Add64(TotalQuantity(winners) % TWO_TO_THE_64, m.quantity)
  {
    assert (winners + [m])[..|winners|] == winners;
    AddModulo(TotalQuantity(winners), m.quantity);
  }

  lemma AddModulo(x: nat, y: Uint64)
    ensures (x + y) % TWO_TO_THE_64 == Add64(x % TWO_TO_THE_64, y)
  {
  }

  /** The winner filter of the auction; the volume is a uint64 and wraps. */
  method SelectWinners(matches: seq<MatchedOrder>, clearing: real)
    returns (winners: seq<MatchedOrder>, volume: Uint64)
    ensures winners == Winners(matches, clearing)
    ensures volume == TotalQuantity(winners) % TWO_TO_THE_64
  {
    winners, volume := [], 0;
    for i := 0 to |matches|
      invariant winners == Winners(matches[..i], clearing)
      invariant volume == TotalQuantity(winners) % TWO_TO_THE_64
    {
      assert matches[..i + 1][..i] == matches[..i];
      if matches[i].price >= clearing {
        VolumeStep(winners, matches[i]);
        volume := Add64(volume, matches[i].quantity);
        winners := winners + [matches[i]];
      }
    }
    assert matches[..|matches|] == matches;
  }

  lemma WinnersAppend(matches: seq<MatchedOrder>, m: MatchedOrder, clearing: real)
    ensures Winners(matches + [m], clearing) == Winners(matches, clearing) + if m.price >= clearing then [m] else []
  {
    assert (matches + [m])[..|matches|] == matches;
  }

  /** Winners of a list sorted by price are its suffix from the first match at the clearing price. */
  lemma {:induction false} WinnersAreSuffix(matches: seq<MatchedOrder>, clearing: real) returns (k: nat)
    requires Nondecreasing(matches)
    ensures k <= |matches| && Winners(matches, clearing) == matches[k..]
    ensures forall i :: 0 <= i < |matches| ==> (k <= i <==> clearing <= matches[i].price)
    decreases |matches|
  {
    if matches == [] {
      return 0;
    }
    var n := |matches| - 1;
    var init, m := matches[..n], matches[n];
    k := WinnersAreSuffix(init, clearing);
    assert matches == init + [m];
    hide Winners;
    WinnersAppend(init, m, clearing);
    if m.price >= clearing {
      assert matches[k..] == init[k..] + [m];
    } else {
      assert forall i :: 0 <= i < n ==> init[i].price <= m.price;
      assert init[k..] == [] == matches[n + 1..];
      k := n + 1;
    }
  }

  lemma DecayLowers(price: real, decay: real)
    requires 0.0 < decay <= 1.0
    ensures price * decay <= price <==> price >= 0.0 || decay == 1.0
  {
    assert price - price * decay == price * (1.0 - decay);
    if price < 0.0 && decay < 1.0 {
      assert price * (1.0 - decay) < 0.0;
    } else if price >= 0.0 {
      assert price * (1.0 - decay) >= 0.0;
    }
  }

  /** With the decayed median as clearing price the winners are always a suffix of the matches. The
      suffix covers at least half of them, starting at or before the middle match, exactly when the
      median is nonnegative or there is no decay. */
  lemma AtLeastHalfWin(matches: seq<MatchedOrder>, median: real, decay: real) returns (k: nat)
    requires Nondecreasing(matches) && matches != [] && IsMedian(Prices(matches), median)
    requires 0.0 < decay <= 1.0
    ensures k <= |matches| && Winners(matches, median * decay) == matches[k..]
    ensures k <= |matches| / 2 <==> median >= 0.0 || decay == 1.0
    ensures median >= 0.0 || decay == 1.0 ==> 2 * |Winners(matches, median * decay)| >= |matches|
  {
    hide SortedBy, IsMedian, Winners;
    k := WinnersAreSuffix(matches, median * decay);
    MedianIsMiddleMatch(matches, median);
    DecayLowers(median, decay);
    assert k <= |matches| / 2 <==> median * decay <= matches[|matches| / 2].price;
  }

  /** A negative price that decays upwards leaves an auction without winners. */
  lemma NegativePriceNoWinner(m: MatchedOrder)
    requires m.price == -1.0
    ensures IsMedian(Prices([m]), -1.0) && Winners([m], -1.0 * 0.5) == []
  {
    var s := Prices([m]);
    assert SortedBy(s, Identity()) && s[|s| / 2] == -1.0;
    assert [m][..0] == [];
  }
}
