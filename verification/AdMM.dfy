/** The market maker for ad slots: constant product with a time-decay factor, in exact arithmetic. */
module AdMM {
  import opened Numbers

  datatype Pool = Pool(ausd: real, slots: Uint64, lastPrice: real, lpTokens: real, decayRate: real)

  /** Delivery window of a slot, in seconds. */
  datatype Window = Window(start: int, end: int)

  /** Exact division. */
  function Over(x: real, y: real): real
    requires y != 0.0
  {
    x / y
  }

  /** 1 - rate * (elapsed share of the window); nothing after the end. */
  function TimeDecay(w: Window, rate: real, now: int): real {
    if now > w.end then 0.0
    else if w.end - w.start <= 0 then 1.0
    else 1.0 - rate * (1.0 - Over((w.end - now) as real, (w.end - w.start) as real))
  }

  /** The product that a swap aims for: both reserves times the decay factor. */
  function EffectiveK(ausd: real, slots: int, decay: real): real {
    ausd * (slots as real) * decay
  }

  /** Quoted output of a swap. Division by zero panics. */
  function SwapOut(p: Pool, decay: real, amountIn: Uint64, buyAUSD: bool): Option<real> {
    if p.ausd <= 0.0 || p.slots == 0 then Some(0.0) else
    var k := EffectiveK(p.ausd, ToInt64(p.slots), decay);
    if buyAUSD then
      var newSlots := ToInt64(Add64(p.slots, amountIn)) as real;
      if newSlots == 0.0 then None else Some(p.ausd - Over(k, newSlots))
    else
      var newAUSD := p.ausd + (ToInt64(amountIn) as real);
      if newAUSD == 0.0 then None else Some((ToInt64(p.slots) as real) - Over(k, newAUSD))
  }

  /** The pool after an accepted swap that was quoted `out`; only whole slots leave it. */
  function AfterSwap(p: Pool, amountIn: Uint64, out: real, buyAUSD: bool): Pool {
    var q := if buyAUSD then p.(slots := Add64(p.slots, amountIn), ausd := p.ausd - out)
             else p.(ausd := p.ausd + (ToInt64(amountIn) as real), slots := Sub64(p.slots, Truncate(out)));
    if q.slots > 0 then q.(lastPrice := Over(q.ausd, ToInt64(q.slots) as real)) else q
  }

  predicate Liquid(p: Pool) {
    p.ausd > 0.0 && p.slots > 0
  }

  function Product(p: Pool): real {
    p.ausd * (p.slots as real)
  }

  /** The slot reserve as the code reads it, through int64. */
  function SlotsRead(p: Pool): real {
    ToInt64(p.slots) as real
  }

  /** The product that the code aims for: the decay factor times the one it reads. */
  function Target(p: Pool, decay: real): real {
    decay * (p.ausd * SlotsRead(p))
  }

  /** The AUSD reserve after an amount was paid in. */
  function PaidIn(p: Pool, amountIn: Uint64): real {
    p.ausd + (ToInt64(amountIn) as real)
  }

  lemma ToInt64Cases(x: Uint64)
    ensures ToInt64(x) == if x < TWO_TO_THE_63 then x else x - TWO_TO_THE_64
  {
  }

  // -------------------------------------------------------------------------------------------
  // Products and signs

  lemma MulNonneg(x: real, y: real)
    requires x >= 0.0 && y >= 0.0
    ensures x * y >= 0.0
  {
  }

  lemma MulPositive(x: real, y: real)
    requires x > 0.0 && y > 0.0
    ensures x * y > 0.0
  {
  }

  lemma OverMeaning(x: real, y: real)
    requires y != 0.0
    ensures Over(x, y) * y == x
  {
  }

  lemma ScaleSign(a: real, z: real)
    requires a > 0.0
    ensures a * z >= 0.0 <==> z >= 0.0
    ensures a * z > 0.0 <==> z > 0.0
  {
    if z > 0.0 {
      MulPositive(a, z);
    } else if z < 0.0 {
      MulPositive(a, -z);
      assert a * -z == -(a * z);
    }
  }

  /** The sign of a quotient is that of the product. */
  lemma QuotientSign(x: real, y: real, k: real)
    requires y != 0.0 && x * y == k
    ensures x >= 0.0 <==> k * y >= 0.0
    ensures x > 0.0 <==> k * y > 0.0
  {
    if y > 0.0 {
      ScaleSign(y, x);
      ScaleSign(y, k);
      assert y * x == k && y * k == k * y;
    } else {
      ScaleSign(-y, x);
      ScaleSign(-y, -k);
      assert -y * x == -k && -y * -k == k * y;
    }
  }

  lemma WholeSlots(a: real, left: real, exact: real, k: real)
    requires a > 0.0 && exact * a == k && exact <= left < exact + 1.0
    ensures k <= a * left < k + a
  {
    var d := left - exact;
    Expand(a, exact, d);
    MulNonneg(a, d);
    MulPositive(a, 1.0 - d);
    Expand(a, d, 1.0 - d);
  }

  lemma Expand(a: real, x: real, y: real)
    ensures a * (x + y) == x * a + a * y && x * a == a * x
  {
  }

  lemma KMeaning(p: Pool, decay: real)
    ensures EffectiveK(p.ausd, ToInt64(p.slots), decay) == Target(p, decay)
  {
    Commute(p.ausd * SlotsRead(p), decay);
  }

  lemma Commute(x: real, y: real)
    ensures x * y == y * x
  {
  }

  // -------------------------------------------------------------------------------------------
  // Single swaps, for all amounts and decay factors

  /** Selling slots: the slot reserve wraps like the source's, and the AUSD reserve times the new slots is
      exactly the decay factor times the old product. The AUSD reserve stays nonnegative exactly if the
      decay factor and the slots before and after, as read through int64, have a nonnegative product. */
  lemma SellKeepsReserves(p: Pool, decay: real, amountIn: Uint64)
    requires Liquid(p)
    ensures var out := SwapOut(p, decay, amountIn, true);
      && (out.None? <==> Add64(p.slots, amountIn) == 0)
      && (out.Some? ==>
           var p' := AfterSwap(p, amountIn, out.value, true);
           && p'.slots == Add64(p.slots, amountIn) && p'.ausd == p.ausd - out.value
           && p'.ausd * SlotsRead(p') == Target(p, decay)
           && (p'.ausd >= 0.0 <==> decay * SlotsRead(p) * SlotsRead(p') >= 0.0))
  {
    hide Over, EffectiveK;
    ToInt64Cases(Add64(p.slots, amountIn));
    var newSlots := ToInt64(Add64(p.slots, amountIn)) as real;
    if newSlots != 0.0 {
      var k := EffectiveK(p.ausd, ToInt64(p.slots), decay);
      var left := Over(k, newSlots);
      OverMeaning(k, newSlots);
      KMeaning(p, decay);
      QuotientSign(left, newSlots, k);
      SellSign(p.ausd, SlotsRead(p), decay, newSlots, k);
    }
  }

  lemma SellSign(a: real, s: real, d: real, t: real, k: real)
    requires a > 0.0 && k == d * (a * s)
    ensures k * t >= 0.0 <==> d * s * t >= 0.0
  {
    assert k * t == a * (d * s * t) by { Regroup(a, s, d, t); }
    ScaleSign(a, d * s * t);
  }

  lemma Regroup(a: real, s: real, d: real, t: real)
    ensures (d * (a * s)) * t == a * (d * s * t)
  {
    calc {
      (d * (a * s)) * t;
      { assert d * (a * s) == a * (d * s); }
      (a * (d * s)) * t;
      a * (d * s * t);
    }
  }

  /** Slots that should be left after buying, in whole slots. */
  function SlotsLeft(p: Pool, out: real): int {
    ToInt64(p.slots) - out.Floor
  }

  /** Buying slots: only whole slots leave the pool. The slot reserve is `SlotsLeft`, and wraps exactly if
      the quotient that the source aims for is -1 or less; the product is at least the decay factor times
      the old one, and above it by less than one slot. */
  lemma BuyKeepsReserves(p: Pool, decay: real, amountIn: Uint64)
    requires Liquid(p)
    ensures var out, a := SwapOut(p, decay, amountIn, false), PaidIn(p, amountIn);
      && (out.None? <==> a == 0.0)
      && (out.Some? && out.value > 0.0 ==>
           var p', k := AfterSwap(p, amountIn, out.value, false), Target(p, decay);
           var left := SlotsLeft(p, out.value);
           && p'.ausd == a && p'.slots == left % TWO_TO_THE_64
           && left <= ToInt64(p.slots) && Over(k, a) <= (left as real) < Over(k, a) + 1.0
           && (p'.slots == left <==> Over(k, a) > -1.0)
           && (a > 0.0 ==> k <= a * (left as real) < k + a))
  {
    hide Over, EffectiveK, AfterSwap, Target;
    KMeaning(p, decay);
    var out, a := SwapOut(p, decay, amountIn, false), PaidIn(p, amountIn);
    if out.Some? && out.value > 0.0 {
      var k := Target(p, decay);
      var left := SlotsLeft(p, out.value);
      AfterBuy(p, amountIn, out.value);
      LeftBounds(p, out.value, Over(k, a));
      OverMeaning(k, a);
      if a > 0.0 {
        WholeSlots(a, left as real, Over(k, a), k);
      }
    }
  }

  lemma AfterBuy(p: Pool, amountIn: Uint64, out: real)
    requires out > 0.0
    ensures AfterSwap(p, amountIn, out, false).ausd == PaidIn(p, amountIn)
    ensures AfterSwap(p, amountIn, out, false).slots == SlotsLeft(p, out) % TWO_TO_THE_64
  {
    hide Over;
    ToInt64Cases(p.slots);
  }

  lemma LeftBounds(p: Pool, out: real, exact: real)
    requires out > 0.0 && out == SlotsRead(p) - exact
    ensures var left := SlotsLeft(p, out);
      && left <= ToInt64(p.slots) && exact <= (left as real) < exact + 1.0
      && (left % TWO_TO_THE_64 == left <==> exact > -1.0)
  {
    ToInt64Cases(p.slots);
  }

  /** Within the window a rate between 0 and 1 gives a factor between 0 and 1. */
  lemma DecayWithinWindow(w: Window, rate: real, now: int)
    requires w.start <= now <= w.end && 0.0 <= rate <= 1.0
    ensures 0.0 <= TimeDecay(w, rate, now) <= 1.0
  {
    hide Over;
    if w.end - w.start > 0 {
      var share := Over((w.end - now) as real, (w.end - w.start) as real);
      ShareBounds((w.end - now) as real, (w.end - w.start) as real);
      LinearDecay(rate, share);
    }
  }

  /** The factor starts at 1, ends at 1 - rate and never rises in between. */
  lemma DecayFalls(w: Window, rate: real, earlier: int, later: int)
    requires w.start < w.end && w.start <= earlier <= later <= w.end && rate >= 0.0
    ensures TimeDecay(w, rate, w.start) == 1.0 && TimeDecay(w, rate, w.end) == 1.0 - rate
    ensures TimeDecay(w, rate, later) <= TimeDecay(w, rate, earlier)
  {
    var length := (w.end - w.start) as real;
    var x, y := Over((w.end - earlier) as real, length), Over((w.end - later) as real, length);
    OverSelf(length);
    OverMonotone((w.end - later) as real, (w.end - earlier) as real, length);
    MulNonneg(rate, x - y);
    assert rate * (1.0 - y) - rate * (1.0 - x) == rate * (x - y);
  }

  /** The decay is linear: up to the end of the window, the share of the rate it has lost is the share of
      the window that has passed. After the end nothing is left, and a window of no length does not decay. */
  lemma DecayIsLinear(w: Window, rate: real, t: int)
    ensures t <= w.end && w.start < w.end ==>
      (1.0 - TimeDecay(w, rate, t)) * ((w.end - w.start) as real) == rate * ((t - w.start) as real)
    ensures t > w.end ==> TimeDecay(w, rate, t) == 0.0
    ensures t <= w.end <= w.start ==> TimeDecay(w, rate, t) == 1.0
  {
    hide Over;
    if t <= w.end && w.start < w.end {
      var length, left := (w.end - w.start) as real, (w.end - t) as real;
      OverMeaning(left, length);
      var share := Over(left, length);
      calc {
        (1.0 - TimeDecay(w, rate, t)) * length;
        (rate * (1.0 - share)) * length;
        { Distribute(rate, share, length); }
        rate * (length - share * length);
        rate * (length - left);
        { assert length - left == (t - w.start) as real; }
        rate * ((t - w.start) as real);
      }
    }
  }

  lemma Distribute(rate: real, share: real, length: real)
    ensures (rate * (1.0 - share)) * length == rate * (length - share * length)
  {
    assert (1.0 - share) * length == length - share * length;
  }

  /** The pool has slots and AUSD, int64 reads all slots and amounts as they are, and the amount is not so
      large that it wraps. */
  predicate Plain(p: Pool, amountIn: Uint64) {
    Liquid(p) && p.slots + amountIn < TWO_TO_THE_63
  }

  /** What both sides of the pool multiply to after the quoted output was taken out in full. */
  function QuotedProduct(p: Pool, amountIn: Uint64, out: real, buyAUSD: bool): real {
    if buyAUSD then (p.ausd - out) * ((p.slots + amountIn) as real)
    else ((p.slots as real) - out) * (p.ausd + (amountIn as real))
  }

  lemma QuoteMeaning(p: Pool, decay: real, amountIn: Uint64, buyAUSD: bool)
    requires Plain(p, amountIn)
    ensures SwapOut(p, decay, amountIn, buyAUSD).Some?
    ensures QuotedProduct(p, amountIn, SwapOut(p, decay, amountIn, buyAUSD).value, buyAUSD) == decay * Product(p)
  {
    hide Over;
    ToInt64Cases(p.slots);
    ToInt64Cases(amountIn);
    ToInt64Cases(p.slots + amountIn);
    var k := EffectiveK(p.ausd, p.slots, decay);
    Commute(p.ausd * (p.slots as real), decay);
    if buyAUSD {
      OverMeaning(k, (p.slots + amountIn) as real);
    } else {
      OverMeaning(k, p.ausd + (amountIn as real));
    }
  }

  /** What a swap pays at any moment up to the end of the window: the product of the reserves shrinks from
      its old value in proportion to the time passed. After the end a swap takes the whole other reserve, and
      in a window of no length it keeps the product. */
  lemma QuoteFollowsTime(w: Window, p: Pool, amountIn: Uint64, buyAUSD: bool, t: int)
    requires Plain(p, amountIn)
    ensures var out := SwapOut(p, TimeDecay(w, p.decayRate, t), amountIn, buyAUSD);
      && out.Some?
      && var product := QuotedProduct(p, amountIn, out.value, buyAUSD);
         && (t <= w.end && w.start < w.end ==>
               (Product(p) - product) * ((w.end - w.start) as real)
               == p.decayRate * ((t - w.start) as real) * Product(p))
         && (t > w.end ==> product == 0.0 && out.value == if buyAUSD then p.ausd else p.slots as real)
         && (t <= w.end <= w.start ==> product == Product(p))
  {
    hide TimeDecay, SwapOut, Product;
    var decay := TimeDecay(w, p.decayRate, t);
    DecayIsLinear(w, p.decayRate, t);
    QuoteMeaning(p, decay, amountIn, buyAUSD);
    var out := SwapOut(p, decay, amountIn, buyAUSD).value;
    var length := (w.end - w.start) as real;
    assert (Product(p) - decay * Product(p)) * length == ((1.0 - decay) * length) * Product(p)
      by { Factor(Product(p), decay, length); }
    if t > w.end {
      if buyAUSD {
        ZeroFactor(p.ausd - out, (p.slots + amountIn) as real);
      } else {
        ZeroFactor((p.slots as real) - out, p.ausd + (amountIn as real));
      }
    }
  }

  lemma Factor(x: real, d: real, y: real)
    ensures (x - d * x) * y == ((1.0 - d) * y) * x
  {
    assert x - d * x == (1.0 - d) * x;
  }

  lemma ZeroFactor(x: real, y: real)
    requires y > 0.0 && x * y == 0.0
    ensures x == 0.0
  {
    SignOfFactor(x, y);
    SignOfFactor(-x, y);
  }

  /** An accepted swap leaves the price at AUSD over slots, as int64 reads them, while slots are left, and
      touches neither liquidity tokens nor decay rate. */
  lemma PriceIsRatio(p: Pool, sw: Swap)
    requires Accepted(p, sw)
    ensures var q := Try(p, sw);
      && (q.slots > 0 ==> q.lastPrice * SlotsRead(q) == q.ausd) && (q.slots == 0 ==> q.lastPrice == p.lastPrice)
      && q.lpTokens == p.lpTokens && q.decayRate == p.decayRate
  {
    hide Over, SwapOut;
    var q := Try(p, sw);
    ToInt64Cases(q.slots);
    if q.slots > 0 {
      OverMeaning(q.ausd, SlotsRead(q));
    }
  }

  lemma OverSelf(x: real)
    requires x > 0.0
    ensures Over(x, x) == 1.0 && Over(0.0, x) == 0.0
  {
    OverMeaning(x, x);
    var d := Over(x, x) - 1.0;
    assert d * x == 0.0;
    SignOfFactor(d, x);
    SignOfFactor(-d, x);
    assert Over(0.0, x) * x == 0.0;
  }

  lemma OverMonotone(x: real, y: real, d: real)
    requires x <= y && d > 0.0
    ensures Over(x, d) <= Over(y, d)
  {
  }

  lemma ShareBounds(x: real, y: real)
    requires 0.0 <= x <= y && y > 0.0
    ensures 0.0 <= Over(x, y) <= 1.0
  {
  }

  lemma LinearDecay(rate: real, share: real)
    requires 0.0 <= rate <= 1.0 && 0.0 <= share <= 1.0
    ensures 0.0 <= 1.0 - rate * (1.0 - share) <= 1.0
  {
    MulNonneg(rate, 1.0 - share);
    MulNonneg(1.0 - rate, 1.0 - share);
    assert (1.0 - rate) * (1.0 - share) == (1.0 - share) - rate * (1.0 - share);
  }

  // -------------------------------------------------------------------------------------------
  // Runs of swaps

  datatype Swap = Swap(amountIn: Uint64, buyAUSD: bool, decay: real)

  /** A swap quoted at nothing or less is refused. */
  function Try(p: Pool, sw: Swap): Pool {
    var out := SwapOut(p, sw.decay, sw.amountIn, sw.buyAUSD);
    if out.None? || out.value <= 0.0 then p else AfterSwap(p, sw.amountIn, out.value, sw.buyAUSD)
  }

  predicate Accepted(p: Pool, sw: Swap) {
    var out := SwapOut(p, sw.decay, sw.amountIn, sw.buyAUSD);
    out.Some? && out.value > 0.0
  }

  /** An accepted sale that turns the sign of the AUSD reserve, by the decay factor and the slots before and
      after as read through int64, or an accepted payment that int64 reads as taking out more than the
      reserve. */
  predicate Overflows(p: Pool, sw: Swap) {
    && Accepted(p, sw)
    && if sw.buyAUSD then sw.decay * SlotsRead(p) * (ToInt64(Add64(p.slots, sw.amountIn)) as real) < 0.0
       else PaidIn(p, sw.amountIn) < 0.0
  }

  /** The product of the reserves as the code reads them. */
  function ReadProduct(p: Pool): real {
    p.ausd * SlotsRead(p)
  }

  lemma AcceptedIsLiquid(p: Pool, sw: Swap)
    requires Accepted(p, sw)
    ensures Liquid(p)
  {
    hide Over, EffectiveK;
  }

  lemma ReadAtLeast(x: int)
    requires x < TWO_TO_THE_63
    ensures ToInt64(x % TWO_TO_THE_64) >= x
  {
    ToInt64Cases(x % TWO_TO_THE_64);
  }

  lemma MulMonotone(a: real, x: real, y: real)
    requires a >= 0.0 && x <= y
    ensures a * x <= a * y
  {
    MulNonneg(a, y - x);
    assert a * (y - x) == a * y - a * x;
  }

  /** For every pool, amount and decay factor: an accepted swap keeps the AUSD reserve nonnegative, and the
      product at least the decay factor times the old one, if and only if it does not overflow. */
  lemma SwapKeepsProduct(p: Pool, sw: Swap)
    requires Accepted(p, sw)
    ensures Try(p, sw).ausd >= 0.0 <==> !Overflows(p, sw)
    ensures Try(p, sw).ausd >= 0.0 ==> ReadProduct(Try(p, sw)) >= sw.decay * ReadProduct(p)
  {
    hide SwapOut, AfterSwap, Over, Target, ToInt64, Add64;
    AcceptedIsLiquid(p, sw);
    assert Target(p, sw.decay) == sw.decay * ReadProduct(p) by { TargetMeaning(p, sw.decay); }
    if sw.buyAUSD {
      SellKeepsReserves(p, sw.decay, sw.amountIn);
    } else {
      BuyKeepsReserves(p, sw.decay, sw.amountIn);
      var out, q := SwapOut(p, sw.decay, sw.amountIn, false).value, Try(p, sw);
      ToInt64Cases(p.slots);
      if q.ausd > 0.0 {
        BoughtRead(q, SlotsLeft(p, out), Target(p, sw.decay));
      }
    }
  }

  lemma BoughtRead(q: Pool, left: int, k: real)
    requires q.ausd > 0.0 && q.slots == left % TWO_TO_THE_64 && left < TWO_TO_THE_63 && k <= q.ausd * (left as real)
    ensures ReadProduct(q) >= k
  {
    hide ToInt64;
    ReadAtLeast(left);
    MulMonotone(q.ausd, left as real, SlotsRead(q));
  }

  lemma TargetMeaning(p: Pool, decay: real)
    ensures Target(p, decay) == decay * ReadProduct(p)
  {
  }

  /** The same for the decay factor of any moment within the delivery window and any rate in [0, 1], which
      is between 0 and 1. */
  lemma WindowSwapKeepsProduct(w: Window, p: Pool, amountIn: Uint64, buyAUSD: bool, now: int)
    requires w.start <= now <= w.end && 0.0 <= p.decayRate <= 1.0
    requires Accepted(p, Swap(amountIn, buyAUSD, TimeDecay(w, p.decayRate, now)))
    ensures var sw := Swap(amountIn, buyAUSD, TimeDecay(w, p.decayRate, now));
      && 0.0 <= sw.decay <= 1.0 && (Try(p, sw).ausd >= 0.0 <==> !Overflows(p, sw))
      && (Try(p, sw).ausd >= 0.0 ==> ReadProduct(Try(p, sw)) >= sw.decay * ReadProduct(p))
  {
    hide TimeDecay, Try, Overflows, Accepted;
    DecayWithinWindow(w, p.decayRate, now);
    SwapKeepsProduct(p, Swap(amountIn, buyAUSD, TimeDecay(w, p.decayRate, now)));
  }

  // -------------------------------------------------------------------------------------------
  // Pools whose slots the code reads as they are

  /** A pool of less than 2^63 slots, unless it trades no more. */
  predicate InRange(p: Pool) {
    p.ausd >= 0.0 && (Liquid(p) ==> p.slots < TWO_TO_THE_63)
  }

  /** Slots sold beyond the range of int64, or AUSD paid in that int64 turns into more than the reserve
      taken out. */
  predicate TooLarge(p: Pool, sw: Swap) {
    && Liquid(p)
    && if sw.buyAUSD then sw.decay > 0.0 && TWO_TO_THE_63 <= p.slots + sw.amountIn < TWO_TO_THE_64
       else PaidIn(p, sw.amountIn) < 0.0
  }

  /** What a swap should keep: the AUSD reserve nonnegative and the product at least the decay factor
      times the old one. */
  predicate Keeps(p: Pool, decay: real, q: Pool) {
    q.ausd >= 0.0 && Product(q) >= decay * Product(p)
  }

  lemma Unchanged(p: Pool, decay: real)
    requires p.ausd >= 0.0 && 0.0 <= decay <= 1.0
    ensures Keeps(p, decay, p)
  {
    MulNonneg(p.ausd, p.slots as real);
    MulNonneg(1.0 - decay, Product(p));
    assert (1.0 - decay) * Product(p) == Product(p) - decay * Product(p);
  }

  lemma SellKeeps(p: Pool, sw: Swap)
    requires Liquid(p) && InRange(p) && 0.0 <= sw.decay <= 1.0 && sw.buyAUSD
    ensures Keeps(p, sw.decay, Try(p, sw)) <==> !TooLarge(p, sw)
    ensures Try(p, sw).ausd >= 0.0 <==> !TooLarge(p, sw)
    ensures !TooLarge(p, sw) ==> InRange(Try(p, sw))
  {
    hide SwapOut, AfterSwap, Product, Target, ToInt64, Add64;
    Unchanged(p, sw.decay);
    var out, s' := SwapOut(p, sw.decay, sw.amountIn, true), Add64(p.slots, sw.amountIn);
    SellKeepsReserves(p, sw.decay, sw.amountIn);
    ToInt64Cases(p.slots);
    ToInt64Cases(s');
    Add64Cases(p.slots, sw.amountIn);
    if out.Some? {
      var q, t := AfterSwap(p, sw.amountIn, out.value, true), ToInt64(s') as real;
      SoldSign(sw.decay, p.slots as real, t);
      SoldProduct(p, sw.decay, q);
    }
  }

  lemma Add64Cases(x: Uint64, y: Uint64)
    ensures Add64(x, y) == if x + y < TWO_TO_THE_64 then x + y else x + y - TWO_TO_THE_64
  {
  }

  lemma SoldSign(d: real, s: real, t: real)
    requires d >= 0.0 && s > 0.0
    ensures d * s * t >= 0.0 <==> d == 0.0 || t >= 0.0
  {
    if d > 0.0 {
      MulPositive(d, s);
      ScaleSign(d * s, t);
    }
  }

  lemma SoldProduct(p: Pool, decay: real, q: Pool)
    requires p.slots < TWO_TO_THE_63 && q.slots > 0 && q.ausd * SlotsRead(q) == Target(p, decay)
    ensures decay == 0.0 ==> q.ausd == 0.0
    ensures q.slots < TWO_TO_THE_63 || decay == 0.0 ==> Product(q) == decay * Product(p)
  {
    ToInt64Cases(p.slots);
    ToInt64Cases(q.slots);
    if decay == 0.0 {
      QuotientSign(q.ausd, SlotsRead(q), 0.0);
      QuotientSign(-q.ausd, SlotsRead(q), 0.0);
    }
  }

  lemma BuyKeeps(p: Pool, sw: Swap)
    requires Liquid(p) && InRange(p) && 0.0 <= sw.decay <= 1.0 && !sw.buyAUSD
    ensures Keeps(p, sw.decay, Try(p, sw)) <==> !TooLarge(p, sw)
    ensures Try(p, sw).ausd >= 0.0 <==> !TooLarge(p, sw)
    ensures !TooLarge(p, sw) ==> InRange(Try(p, sw))
  {
    hide SwapOut, AfterSwap, Over, Product, Target, PaidIn;
    Unchanged(p, sw.decay);
    var out, a := SwapOut(p, sw.decay, sw.amountIn, false), PaidIn(p, sw.amountIn);
    BuyKeepsReserves(p, sw.decay, sw.amountIn);
    ToInt64Cases(p.slots);
    if out.Some? {
      BoughtQuotient(p, sw.decay, a);
      BuyQuote(p, sw.decay, sw.amountIn);
      if out.value > 0.0 && a > 0.0 {
        var q := AfterSwap(p, sw.amountIn, out.value, false);
        assert q.slots == SlotsLeft(p, out.value) <= p.slots;
        BoughtProduct(p, sw.decay, q);
      }
    }
  }

  lemma BoughtQuotient(p: Pool, decay: real, a: real)
    requires Liquid(p) && p.slots < TWO_TO_THE_63 && decay >= 0.0 && a != 0.0
    ensures a > 0.0 ==> Over(Target(p, decay), a) >= 0.0
    ensures a < 0.0 ==> Over(Target(p, decay), a) <= 0.0
  {
    hide Over;
    ToInt64Cases(p.slots);
    var k := Target(p, decay);
    MulNonneg(p.ausd, SlotsRead(p));
    MulNonneg(decay, p.ausd * SlotsRead(p));
    OverMeaning(k, a);
    QuotientSign(Over(k, a), a, k);
    if a > 0.0 {
      MulNonneg(k, a);
    } else {
      OverMeaning(k, a);
      QuotientSign(-Over(k, a), a, -k);
      MulNonneg(k, -a);
      assert k * -a == -k * a;
    }
  }

  lemma BuyQuote(p: Pool, decay: real, amountIn: Uint64)
    requires Liquid(p) && SwapOut(p, decay, amountIn, false).Some?
    ensures PaidIn(p, amountIn) != 0.0
    ensures SwapOut(p, decay, amountIn, false).value == SlotsRead(p) - Over(Target(p, decay), PaidIn(p, amountIn))
  {
    hide Over, EffectiveK, Target;
    KMeaning(p, decay);
  }

  lemma BoughtProduct(p: Pool, decay: real, q: Pool)
    requires p.slots < TWO_TO_THE_63 && Target(p, decay) <= q.ausd * (q.slots as real)
    ensures Product(q) >= decay * Product(p)
  {
    ToInt64Cases(p.slots);
  }

  /** In such a pool a swap, accepted or not, keeps the AUSD reserve nonnegative and a product of at least
      the decay factor times the old one if and only if its amount is not too large. */
  lemma InRangeSwap(p: Pool, sw: Swap)
    requires InRange(p) && 0.0 <= sw.decay <= 1.0
    ensures Keeps(p, sw.decay, Try(p, sw)) <==> !TooLarge(p, sw)
    ensures Try(p, sw).ausd >= 0.0 <==> !TooLarge(p, sw)
    ensures !TooLarge(p, sw) ==> InRange(Try(p, sw))
  {
    hide Try, Keeps;
    if !Liquid(p) {
      DryPool(p, sw);
      Unchanged(p, sw.decay);
    } else if sw.buyAUSD {
      SellKeeps(p, sw);
    } else {
      BuyKeeps(p, sw);
    }
  }

  /** A pool without AUSD or slots trades no more. */
  lemma DryPool(p: Pool, sw: Swap)
    requires !Liquid(p)
    ensures Try(p, sw) == p
  {
  }

  function RunSwaps(p: Pool, sws: seq<Swap>): Pool {
    if sws == [] then p else Try(RunSwaps(p, sws[..|sws| - 1]), sws[|sws| - 1])
  }

  /** Swap `i` of the run overflows. */
  predicate OverflowsAt(p: Pool, sws: seq<Swap>, i: int) {
    0 <= i < |sws| && Overflows(RunSwaps(p, sws[..i]), sws[i])
  }

  ghost predicate Overflowing(p: Pool, sws: seq<Swap>) {
    exists i :: OverflowsAt(p, sws, i)
  }

  /** The product of the decay factors of the accepted swaps. */
  function Retained(p: Pool, sws: seq<Swap>): real {
    if sws == [] then 1.0 else
    var n := |sws| - 1;
    Retained(p, sws[..n]) * if Accepted(RunSwaps(p, sws[..n]), sws[n]) then sws[n].decay else 1.0
  }

  lemma ScaleInequality(d: real, x: real, r: real, y: real)
    requires d >= 0.0 && x >= r * y
    ensures d * x >= (r * d) * y
  {
    MulNonneg(d, x - r * y);
    assert d * (x - r * y) == d * x - (r * d) * y;
  }

  lemma OverflowsSplit(p: Pool, sws: seq<Swap>)
    requires sws != []
    ensures Overflowing(p, sws) <==>
      Overflowing(p, sws[..|sws| - 1]) || Overflows(RunSwaps(p, sws[..|sws| - 1]), sws[|sws| - 1])
  {
    hide RunSwaps, Overflows;
    var n := |sws| - 1;
    forall i | 0 <= i < n
      ensures OverflowsAt(p, sws, i) <==> OverflowsAt(p, sws[..n], i)
    {
      assert sws[..n][..i] == sws[..i];
    }
    assert OverflowsAt(p, sws, n) <==> Overflows(RunSwaps(p, sws[..n]), sws[n]);
    if i :| OverflowsAt(p, sws, i) {
      assert i == n || OverflowsAt(p, sws[..n], i);
    }
  }

  /** Over every run of swaps, from every pool, the AUSD reserve stays nonnegative if and only if no swap
      overflows, and then the pool keeps at least the product of the decay factors of the accepted swaps.
      After an overflow it trades no more. */
  lemma {:induction false} RunKeepsProduct(p: Pool, sws: seq<Swap>)
    requires p.ausd >= 0.0 && forall i :: 0 <= i < |sws| ==> sws[i].decay >= 0.0
    ensures RunSwaps(p, sws).ausd >= 0.0 <==> !Overflowing(p, sws)
    ensures RunSwaps(p, sws).ausd >= 0.0 ==> ReadProduct(RunSwaps(p, sws)) >= Retained(p, sws) * ReadProduct(p)
    decreases |sws|
  {
    hide Try, ReadProduct, Overflows, Overflowing, Accepted;
    if sws == [] {
      NoSwaps(p);
    } else {
      var n := |sws| - 1;
      RunKeepsProduct(p, sws[..n]);
      OverflowsSplit(p, sws);
      var q := RunSwaps(p, sws[..n]);
      if Accepted(q, sws[n]) {
        SwapKeepsProduct(q, sws[n]);
        AcceptedIsLiquid(q, sws[n]);
        ScaleInequality(sws[n].decay, ReadProduct(q), Retained(p, sws[..n]), ReadProduct(p));
      } else {
        RefusedSwap(q, sws[n]);
      }
    }
  }

  lemma RefusedSwap(p: Pool, sw: Swap)
    requires !Accepted(p, sw)
    ensures Try(p, sw) == p && !Overflows(p, sw)
  {
    hide SwapOut;
  }

  lemma NoSwaps(p: Pool)
    ensures !Overflowing(p, [])
  {
  }

  lemma {:induction false} RunInRange(p: Pool, sws: seq<Swap>)
    requires InRange(p) && forall i :: 0 <= i < |sws| ==> 0.0 <= sws[i].decay <= 1.0
    requires RunSwaps(p, sws).ausd >= 0.0
    ensures InRange(RunSwaps(p, sws))
    decreases |sws|
  {
    hide Try, TooLarge;
    if sws != [] {
      var n := |sws| - 1;
      var q := RunSwaps(p, sws[..n]);
      if q.ausd < 0.0 {
        DryPool(q, sws[n]);
      } else {
        RunInRange(p, sws[..n]);
        InRangeSwap(q, sws[n]);
      }
    }
  }

  lemma ReadInRange(p: Pool)
    requires InRange(p)
    ensures ReadProduct(p) == p.ausd * (p.slots as real)
  {
    ToInt64Cases(p.slots);
  }

  lemma CompareReserves(a: real, s: int, a': real, s': int)
    requires a' * (s' as real) >= a * (s as real) && a > 0.0 && a' >= 0.0 && 0 <= s' <= s && 0 < s
    ensures a' >= a
  {
    MulNonneg(a', (s - s') as real);
    assert a' * ((s - s') as real) == a' * (s as real) - a' * (s' as real);
    assert (a' - a) * (s as real) == a' * (s as real) - a * (s as real);
    SignOfFactor(a' - a, s as real);
  }

  lemma SignOfFactor(x: real, y: real)
    requires x * y >= 0.0 && y > 0.0
    ensures x >= 0.0
  {
  }

  predicate NoDecay(sws: seq<Swap>) {
    forall i :: 0 <= i < |sws| ==> sws[i].decay == 1.0
  }

  lemma {:induction false} NoDecayRetainsAll(p: Pool, sws: seq<Swap>)
    requires NoDecay(sws)
    ensures Retained(p, sws) == 1.0
    decreases |sws|
  {
    hide Accepted, RunSwaps;
    if sws != [] {
      NoDecayRetainsAll(p, sws[..|sws| - 1]);
    }
  }

  /** Without decay no sequence of swaps extracts value: a run that leaves no more slots in the pool
      leaves no less AUSD, if and only if none of its swaps overflows. */
  lemma NoFreeAUSD(p: Pool, sws: seq<Swap>)
    requires Liquid(p) && InRange(p) && NoDecay(sws) && RunSwaps(p, sws).slots <= p.slots
    ensures RunSwaps(p, sws).ausd >= p.ausd <==> !Overflowing(p, sws)
  {
    hide RunSwaps, Retained, Overflowing, ReadProduct;
    RunKeepsProduct(p, sws);
    NoDecayRetainsAll(p, sws);
    var q := RunSwaps(p, sws);
    if q.ausd >= 0.0 {
      RunInRange(p, sws);
      ReadInRange(p);
      ReadInRange(q);
      CompareReserves(p.ausd, p.slots, q.ausd, q.slots);
    }
  }

  /** No run without decay and overflow leaves no more slots and less AUSD. */
  ghost predicate NeverLeaks(p: Pool) {
    forall sws :: NoDecay(sws) && !Overflowing(p, sws) && RunSwaps(p, sws).slots <= p.slots ==>
      RunSwaps(p, sws).ausd >= p.ausd
  }

  /** A pool of more than 2^63 slots leaks: sell as many slots as wrap its reserve to 2^63. */
  lemma HugePoolLeaks(p: Pool) returns (sw: Swap)
    requires Liquid(p) && p.slots > TWO_TO_THE_63
    ensures sw.decay == 1.0 && Accepted(p, sw) && !Overflows(p, sw)
    ensures Try(p, sw).slots == TWO_TO_THE_63 && Try(p, sw).ausd < p.ausd
  {
    hide SwapOut, AfterSwap, ToInt64, Add64, Sub64;
    var amountIn := Sub64(TWO_TO_THE_63, p.slots);
    sw := Swap(amountIn, true, 1.0);
    Returned(TWO_TO_THE_63, p.slots);
    SellKeepsReserves(p, 1.0, amountIn);
    ToInt64Cases(p.slots);
    ToInt64Cases(TWO_TO_THE_63);
    var q := AfterSwap(p, amountIn, SwapOut(p, 1.0, amountIn, true).value, true);
    Shrinks(p.ausd, q.ausd, -SlotsRead(p), TWO_TO_THE_63 as real);
  }

  lemma Shrinks(a: real, a': real, n: real, m: real)
    requires a > 0.0 && 0.0 < n < m && a' * -m == 1.0 * (a * -n)
    ensures a' < a && 1.0 * -n * -m > 0.0
  {
    assert a' * m == a * n;
    MulPositive(a, m - n);
    assert (a - a') * m == a * (m - n);
    ScaleSign(m, a - a');
    assert m * (a - a') == (a - a') * m;
    MulPositive(n, m);
  }

  /** In a pool of exactly 2^63 slots and at most one AUSD every swap is refused or overflows. */
  lemma BoundarySwap(p: Pool, sw: Swap)
    requires Liquid(p) && p.slots == TWO_TO_THE_63 && p.ausd <= 1.0 && sw.decay == 1.0 && Accepted(p, sw)
    ensures Overflows(p, sw)
  {
    hide SwapOut, AfterSwap, ToInt64, Add64, Over;
    ToInt64Cases(p.slots);
    if sw.buyAUSD {
      var q := AfterSwap(p, sw.amountIn, SwapOut(p, 1.0, sw.amountIn, true).value, true);
      SellKeepsReserves(p, 1.0, sw.amountIn);
      ToInt64Cases(q.slots);
      BoundarySale(p.ausd, q.ausd, TWO_TO_THE_63 as real, SlotsRead(q));
    } else {
      BuyKeepsReserves(p, 1.0, sw.amountIn);
      BuyQuote(p, 1.0, sw.amountIn);
      ToInt64Cases(sw.amountIn);
      if PaidIn(p, sw.amountIn) > 0.0 {
        BoundaryPurchase(p.ausd, PaidIn(p, sw.amountIn), SlotsRead(p));
      }
    }
  }

  lemma BoundarySale(a: real, a': real, n: real, t: real)
    requires a > 0.0 && n > 0.0 && -n <= t && t != 0.0 && a' * t == 1.0 * (a * -n) && a' < a
    ensures 1.0 * -n * t < 0.0
  {
    if t < 0.0 {
      SaleRaises(a, a', n, t);
    }
    MulPositive(n, t);
  }

  lemma SaleRaises(a: real, a': real, n: real, t: real)
    requires a > 0.0 && n > 0.0 && -n <= t < 0.0 && a' * t == 1.0 * (a * -n)
    ensures a' >= a
  {
    MulNonneg(a, n + t);
    assert a * (n + t) == a * n + a * t;
    assert -t * (a' - a) == a * t - a' * t;
    ScaleSign(-t, a' - a);
  }

  lemma BoundaryPurchase(x: real, a: real, s: real)
    requires s < 0.0 < a && s - Over(1.0 * (x * s), a) > 0.0
    ensures a < x
  {
    var k := 1.0 * (x * s);
    OverMeaning(k, a);
    MulPositive(a, s - Over(k, a));
    assert a * (s - Over(k, a)) == a * s - k;
    assert (x - a) * -s == a * s - x * s;
    ScaleSign(-s, x - a);
    assert -s * (x - a) == (x - a) * -s;
  }

  /** With more than one AUSD such a pool leaks: take out one AUSD as a payment of 2^64 - 1, and if that
      leaves more slots, sell as above. */
  lemma BoundaryLeaks(p: Pool) returns (sws: seq<Swap>)
    requires Liquid(p) && p.slots == TWO_TO_THE_63 && p.ausd > 1.0
    ensures NoDecay(sws) && !Overflowing(p, sws)
    ensures RunSwaps(p, sws).slots <= p.slots && RunSwaps(p, sws).ausd < p.ausd
  {
    hide SwapOut, AfterSwap, ToInt64, Add64, Over, RunSwaps, Overflowing;
    var sw := Swap(TWO_TO_THE_64 - 1, false, 1.0);
    ToInt64Cases(p.slots);
    ToInt64Cases(TWO_TO_THE_64 - 1);
    BuyKeepsReserves(p, 1.0, sw.amountIn);
    BuyQuote(p, 1.0, sw.amountIn);
    TakenOut(p.ausd, SlotsRead(p));
    var q := Try(p, sw);
    OneSwap(p, sw);
    sws := [sw];
    if q.slots > TWO_TO_THE_63 {
      var next := HugePoolLeaks(q);
      TwoSwaps(p, sw, next);
      sws := [sw, next];
    }
  }

  lemma TakenOut(x: real, s: real)
    requires s < 0.0 && x > 1.0
    ensures s - Over(1.0 * (x * s), x + -1.0) > 0.0
  {
    var k, a := 1.0 * (x * s), x + -1.0;
    OverMeaning(k, a);
    assert a * (s - Over(k, a)) == a * s - k;
    assert a * s - k == -s;
    ScaleSign(a, s - Over(k, a));
  }

  lemma TwoSwaps(p: Pool, sw: Swap, next: Swap)
    ensures RunSwaps(p, [sw, next]) == Try(Try(p, sw), next)
    ensures Overflowing(p, [sw, next]) <==> Overflows(p, sw) || Overflows(Try(p, sw), next)
  {
    hide Try, Overflows;
    assert [sw, next][..1] == [sw];
    OneSwap(p, sw);
    OverflowsSplit(p, [sw, next]);
  }

  lemma {:induction false} BoundaryStays(p: Pool, sws: seq<Swap>)
    requires Liquid(p) && p.slots == TWO_TO_THE_63 && p.ausd <= 1.0 && NoDecay(sws) && !Overflowing(p, sws)
    ensures RunSwaps(p, sws) == p
    decreases |sws|
  {
    hide Accepted, Overflows, Overflowing, Try;
    if sws != [] {
      var n := |sws| - 1;
      OverflowsSplit(p, sws);
      BoundaryStays(p, sws[..n]);
      if Accepted(p, sws[n]) {
        BoundarySwap(p, sws[n]);
      } else {
        RefusedSwap(p, sws[n]);
      }
    }
  }

  /** So no value can be extracted if and only if the pool has less than 2^63 slots, or just that many and
      at most one AUSD. */
  lemma NeverLeaksExactly(p: Pool)
    requires Liquid(p)
    ensures NeverLeaks(p) <==> p.slots < TWO_TO_THE_63 || (p.slots == TWO_TO_THE_63 && p.ausd <= 1.0)
  {
    hide RunSwaps, Overflowing, Try, Accepted, Overflows, NoDecay;
    if p.slots < TWO_TO_THE_63 || (p.slots == TWO_TO_THE_63 && p.ausd <= 1.0) {
      forall sws | NoDecay(sws) && !Overflowing(p, sws) && RunSwaps(p, sws).slots <= p.slots
        ensures RunSwaps(p, sws).ausd >= p.ausd
      {
        if p.slots < TWO_TO_THE_63 {
          NoFreeAUSD(p, sws);
        } else {
          BoundaryStays(p, sws);
        }
      }
    } else if p.slots > TWO_TO_THE_63 {
      var sw := HugePoolLeaks(p);
      OneSwap(p, sw);
      assert NoDecay([sw]) by { OneNoDecay(sw); }
    } else {
      var sws := BoundaryLeaks(p);
    }
  }

  lemma OneNoDecay(sw: Swap)
    requires sw.decay == 1.0
    ensures NoDecay([sw])
  {
  }

  lemma OneSwap(p: Pool, sw: Swap)
    ensures RunSwaps(p, [sw]) == Try(p, sw) && (Overflowing(p, [sw]) <==> Overflows(p, sw))
  {
    hide Try, Overflows;
    assert [sw][..0] == [];
    NoSwaps(p);
    OverflowsSplit(p, [sw]);
  }

  /** Buying slots and selling the whole slots received back never returns more AUSD than was paid, for
      any amount. */
  lemma RoundTripNeverGains(p: Pool, amountIn: Uint64)
    requires Liquid(p) && InRange(p) && SwapOut(p, 1.0, amountIn, false).Some?
    requires SwapOut(p, 1.0, amountIn, false).value > 0.0
    ensures var bought := AfterSwap(p, amountIn, SwapOut(p, 1.0, amountIn, false).value, false);
      var back := SwapOut(bought, 1.0, Sub64(p.slots, bought.slots), true);
      back.Some? && back.value <= amountIn as real
  {
    hide SwapOut, AfterSwap, Product, TooLarge, SlotsLeft, ToInt64, Add64, Sub64;
    var out := SwapOut(p, 1.0, amountIn, false).value;
    var bought := AfterSwap(p, amountIn, out, false);
    var received := Sub64(p.slots, bought.slots);
    assert Try(p, Swap(amountIn, false, 1.0)) == bought;
    InRangeSwap(p, Swap(amountIn, false, 1.0));
    AfterBuy(p, amountIn, out);
    if bought.ausd >= 0.0 {
      BoughtIsLiquid(p, bought);
      Returned(p.slots, bought.slots);
      SoldBack(p, bought, received);
      ToInt64Cases(amountIn);
    } else {
      NoQuote(bought, received);
    }
  }

  lemma Returned(x: Uint64, y: Uint64)
    ensures Add64(y, Sub64(x, y)) == x
  {
  }

  lemma NoQuote(p: Pool, amountIn: Uint64)
    requires p.ausd <= 0.0
    ensures SwapOut(p, 1.0, amountIn, true) == Some(0.0)
  {
  }

  /** Selling until the pool has its old slots again leaves it no less than its old AUSD. */
  lemma SoldBack(p: Pool, q: Pool, received: Uint64)
    requires Liquid(p) && InRange(p) && Liquid(q) && InRange(q) && Product(q) >= Product(p)
    requires Add64(q.slots, received) == p.slots
    ensures SwapOut(q, 1.0, received, true).Some? && SwapOut(q, 1.0, received, true).value <= q.ausd - p.ausd
  {
    hide SwapOut, AfterSwap, Product;
    SellKeepsReserves(q, 1.0, received);
    var sold := AfterSwap(q, received, SwapOut(q, 1.0, received, true).value, true);
    ToInt64Cases(p.slots);
    ToInt64Cases(q.slots);
    SoldProduct(q, 1.0, sold);
    SoldSign(1.0, q.slots as real, p.slots as real);
    assert Product(sold) >= Product(p);
    ProductMeaning(p);
    ProductMeaning(sold);
    CompareReserves(p.ausd, p.slots, sold.ausd, sold.slots);
  }

  lemma ProductMeaning(p: Pool)
    ensures Product(p) == p.ausd * (p.slots as real)
  {
  }

  lemma BoughtIsLiquid(p: Pool, q: Pool)
    requires Liquid(p) && q.ausd >= 0.0 && Product(q) >= 1.0 * Product(p)
    ensures Liquid(q)
  {
    MulPositive(p.ausd, p.slots as real);
    EmptyProduct(q);
  }

  lemma EmptyProduct(p: Pool)
    ensures p.slots == 0 ==> Product(p) == 0.0
    ensures p.ausd == 0.0 ==> Product(p) == 0.0
  {
  }

  // -------------------------------------------------------------------------------------------
  // Where the conditions fail

  /** A rate above 1 makes the factor negative, and then selling slots makes the AUSD reserve negative and
      buying them wraps the slot reserve. */
  lemma NegativeDecay(w: Window)
    requires w.start < w.end
    ensures TimeDecay(w, 2.0, w.end) == -1.0
    ensures Try(Pool(1.0, 1, 1.0, 1.0, 2.0), Swap(1, true, -1.0)).ausd == -0.5
    ensures Try(Pool(1.0, 4, 0.25, 2.0, 2.0), Swap(1, false, -1.0)).slots == TWO_TO_THE_64 - 2
  {
    DecayFalls(w, 2.0, w.end, w.end);
    SellAtMinusOne();
    BuyAtMinusOne();
  }

  lemma SellAtMinusOne()
    ensures Try(Pool(1.0, 1, 1.0, 1.0, 2.0), Swap(1, true, -1.0)).ausd == -0.5
  {
    assert ToInt64(1) == 1 && ToInt64(2) == 2;
    assert Over(-1.0, 2.0) == -0.5;
    assert SwapOut(Pool(1.0, 1, 1.0, 1.0, 2.0), -1.0, 1, true) == Some(1.5);
  }

  lemma BuyAtMinusOne()
    ensures Try(Pool(1.0, 4, 0.25, 2.0, 2.0), Swap(1, false, -1.0)).slots == TWO_TO_THE_64 - 2
  {
    assert ToInt64(1) == 1 && ToInt64(4) == 4;
    assert Over(-4.0, 2.0) == -2.0;
    assert SwapOut(Pool(1.0, 4, 0.25, 2.0, 2.0), -1.0, 1, false) == Some(6.0);
    assert Truncate(6.0) == 6;
    AfterBuy(Pool(1.0, 4, 0.25, 2.0, 2.0), 1, 6.0);
  }

  /** Selling 2^63 slots takes the whole AUSD reserve and more. */
  lemma HugeSaleOverflows()
    ensures var p, sw := Pool(1.0, 1, 1.0, 1.0, 0.0), Swap(TWO_TO_THE_63, true, 1.0);
      InRange(p) && TooLarge(p, sw) && Try(p, sw).ausd < 0.0
  {
    InRangeSwap(Pool(1.0, 1, 1.0, 1.0, 0.0), Swap(TWO_TO_THE_63, true, 1.0));
  }

  /** In a pool of 2^63 slots, buying for 2^63 and selling back returns three times as much. */
  lemma HugeRoundTripGains(price: real)
    ensures var unit := TWO_TO_THE_63 as real;
      var p := Pool(3.0 * unit, TWO_TO_THE_63, price, price, 0.0);
      && SwapOut(p, 1.0, TWO_TO_THE_63, false) == Some(unit / 2.0)
      && var bought := AfterSwap(p, TWO_TO_THE_63, unit / 2.0, false);
         SwapOut(bought, 1.0, Sub64(p.slots, bought.slots), true) == Some(3.0 * unit)
  {
    var unit, half := TWO_TO_THE_63 as real, 0x4000_0000_0000_0000;
    var p := Pool(3.0 * unit, TWO_TO_THE_63, price, price, 0.0);
    ToInt64Cases(TWO_TO_THE_63);
    ToInt64Cases(half);
    assert EffectiveK(p.ausd, -TWO_TO_THE_63, 1.0) == -3.0 * unit * unit;
    assert Over(-3.0 * unit * unit, 2.0 * unit) == -1.5 * unit;
    var bought := AfterSwap(p, TWO_TO_THE_63, unit / 2.0, false);
    AfterBuy(p, TWO_TO_THE_63, unit / 2.0);
    assert (unit / 2.0).Floor == half;
    assert bought.ausd == 2.0 * unit && bought.slots == half;
    assert EffectiveK(bought.ausd, half, 1.0) == unit * unit;
    assert Over(unit * unit, -unit) == -unit;
  }

  // -------------------------------------------------------------------------------------------
  // The manager object

  datatype SlotID = SlotID(value: nat)

  class AdSlotManager {
    var windows: map<SlotID, Window>
    var pools: map<SlotID, Pool>

    /** Every pool belongs to a known slot. */
    predicate Valid()
      reads this
    {
      forall id :: id in pools ==> id in windows
    }

    constructor (windows: map<SlotID, Window>)
      ensures Valid() && this.windows == windows && pools == map[]
    {
      this.windows, pools := windows, map[];
    }

    /** Creates a pool for a known slot without one. An empty pool panics on its price; any other is
        stored even if paying for it fails afterwards. `root` is the decimal library's square root of the
        product of the initial reserves. */
    method CreatePool(id: SlotID, ausd: real, slots: Uint64, rate: real, root: real, transferred: bool)
      returns (ok: bool)
      requires Valid()
      modifies this`pools
      ensures Valid() && (ok <==> id in windows && id !in old(pools) && slots > 0 && transferred)
      ensures pools == if id in windows && id !in old(pools) && slots > 0
                       then old(pools)[id := Pool(ausd, slots, Over(ausd, ToInt64(slots) as real), root, rate)]
                       else old(pools)
    {
      if id !in windows || id in pools || slots == 0 {
        return false;
      }
      var initialPrice := Over(ausd, ToInt64(slots) as real);
      pools := pools[id := Pool(ausd, slots, initialPrice, root, rate)];
      ok := transferred;
    }

    /** A swap at the decay of the moment; refusals and panics change nothing. */
    method SwapAdMM(id: SlotID, amountIn: Uint64, buyAUSD: bool, now: int) returns (out: Option<real>)
      requires Valid()
      modifies this`pools
      ensures Valid() && pools.Keys == old(pools).Keys
      ensures forall other :: other in pools && other != id ==> pools[other] == old(pools)[other]
      ensures id in pools ==>
        var decay := TimeDecay(windows[id], old(pools)[id].decayRate, now);
        && pools[id] == Try(old(pools)[id], Swap(amountIn, buyAUSD, decay))
        && var q := SwapOut(old(pools)[id], decay, amountIn, buyAUSD);
           out == if q.Some? && q.value > 0.0 then q else None
      ensures id !in pools ==> out == None
      ensures id in pools && now > windows[id].end && Plain(old(pools)[id], amountIn) ==>
        out == Some(if buyAUSD then old(pools)[id].ausd else old(pools)[id].slots as real)
    {
      hide Over, EffectiveK, TimeDecay;
      if id !in pools {
        return None;
      }
      var pool := pools[id];
      if Plain(pool, amountIn) {
        QuoteFollowsTime(windows[id], pool, amountIn, buyAUSD, now);
      }
      var decay := TimeDecay(windows[id], pool.decayRate, now);
      out := SwapOut(pool, decay, amountIn, buyAUSD);
      if out.None? || out.value <= 0.0 {
        return None;
      }
      if buyAUSD {
        pool := pool.(slots := Add64(pool.slots, amountIn));
        pool := pool.(ausd := pool.ausd - out.value);
      } else {
        pool := pool.(ausd := pool.ausd + (ToInt64(amountIn) as real));
        pool := pool.(slots := Sub64(pool.slots, Truncate(out.value)));
      }
      if pool.slots > 0 {
        pool := pool.(lastPrice := Over(pool.ausd, ToInt64(pool.slots) as real));
      }
      pools := pools[id := pool];
    }
  }
}
