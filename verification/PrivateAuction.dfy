/** Homomorphic computations on encrypted bids, and the auction that decides on them. */
module PrivateAuction {
  import opened Numbers
  import opened NumberTheory
  import opened BigBytes
  import opened Paillier

  /** A bid amount in whole cents, truncated, as a 64-bit integer. */
  function Cents(amount: real): int {
    ToInt64(Truncate(amount * 100.0))
  }

  /** The amount lies less than a cent beyond its cents, away from zero, while they fit 64 bits; beyond
      that range the cents are the whole part of the amount wrapped into it. */
  lemma CentsMeaning(amount: real)
    ensures var x, c := amount * 100.0, Cents(amount) as real;
      && (0.0 <= x < TWO_TO_THE_63 as real ==> c <= x < c + 1.0)
      && (-(TWO_TO_THE_63 as real) <= x <= 0.0 ==> c - 1.0 < x <= c)
    ensures -TWO_TO_THE_63 <= Cents(amount) < TWO_TO_THE_63
    ensures exists k: int :: WrappedBy(amount, Cents(amount), k)
  {
    var x := amount * 100.0;
    var whole := if x >= 0.0 then x.Floor else -((-x).Floor);
    ToInt64Fits(whole);
    assert WrappedBy(amount, Cents(amount), (whole + TWO_TO_THE_63) / TWO_TO_THE_64);
  }

  /** Adding `k` times 2^64 to the cents gives the whole cents of the amount, towards zero. */
  predicate WrappedBy(amount: real, cents: int, k: int) {
    var x, whole := amount * 100.0, (cents + k * TWO_TO_THE_64) as real;
    if x >= 0.0 then whole <= x < whole + 1.0 else whole - 1.0 < x <= whole
  }

  /** Encrypts the cents under the mask `r`; refuses only plaintexts of n and above. */
  function EncryptBid(s: Scheme, amount: real, r: nat): Option<EncryptedData>
    requires s.n2 > 0
  {
    if Cents(amount) >= s.n then None else
    match Encrypt(s, Cents(amount), r)
    case None => None
    case Some(c) => Some(EncryptedData(Bytes(c), "bid_v1"))
  }

  lemma EncryptedBidCarries(s: Scheme, p: nat, q: nat, amount: real, r: nat)
    requires KeyOf(s, p, q) && Vanishes(s, r)
    ensures EncryptBid(s, amount, r).Some? <==> Cents(amount) < s.n
    ensures EncryptBid(s, amount, r).Some? ==>
      Carries(s, SetBytes(EncryptBid(s, amount, r).value.ciphertext), Cents(amount))
  {
    hide Cents, Encrypt, Carries, Bytes, SetBytes;
    EncryptCarries(s, p, q, Cents(amount), r);
    BytesRoundTrip(Encrypt(s, Cents(amount), r).value);
  }

  /** Decrypting an encrypted bid returns its cents modulo n, for every key and every mask that carries
      nothing; that is the cents themselves exactly for the bids that are not negative. A bid within the
      range of 64 bits thus comes back to within a cent. */
  lemma BidRoundTrip(s: Scheme, p: nat, q: nat, amount: real, r: nat)
    requires KeyOf(s, p, q) && Vanishes(s, r) && Cents(amount) < s.n
    ensures EncryptBid(s, amount, r).Some?
    ensures Decrypt(s, EncryptBid(s, amount, r).value) == Some(Cents(amount) % s.n)
    ensures Decrypt(s, EncryptBid(s, amount, r).value) == Some(Cents(amount)) <==> Cents(amount) >= 0
    ensures 0.0 <= amount * 100.0 < TWO_TO_THE_63 as real ==>
      var cents := Decrypt(s, EncryptBid(s, amount, r).value).value as real;
      cents <= amount * 100.0 < cents + 1.0
  {
    CentsMeaning(amount);
    hide Cents, EncryptBid, Carries, Decrypt, Lcm, Cong, ValidPrimes;
    EncryptedBidCarries(s, p, q, amount, r);
    DecryptCarried(s, p, q, EncryptBid(s, amount, r).value, Cents(amount));
    if Cents(amount) >= 0 {
      DivModUnique(Cents(amount), s.n, 0, Cents(amount));
    }
  }

  // -------------------------------------------------------------------------------------------
  // Nested homomorphic operations

  datatype Expr =
    | Fresh(plain: int, mask: nat, context: string)
    | Sum(left: Expr, right: Expr)
    | Scaled(arg: Expr, k: int)

  /** What the expression computes on plaintexts. */
  function Plain(e: Expr): int {
    match e
    case Fresh(m, _, _) => m
    case Sum(a, b) => Plain(a) + Plain(b)
    case Scaled(a, k) => Plain(a) * k
  }

  /** What it computes on ciphertexts. */
  function Eval(s: Scheme, e: Expr): Option<EncryptedData>
    requires s.n2 > 0
  {
    match e
    case Fresh(m, r, context) =>
      (match Encrypt(s, m, r)
       case None => None
       case Some(c) => Some(EncryptedData(Bytes(c), context)))
    case Sum(a, b) =>
      var x, y := Eval(s, a), Eval(s, b);
      if x.None? || y.None? then None else AddEncrypted(s, x.value, y.value)
    case Scaled(a, k) =>
      var x := Eval(s, a);
      if x.None? then None else MultiplyByConstant(s, x.value, k)
  }

  /** Every sum adds ciphertexts of one context, the one returned. */
  function Context(e: Expr): Option<string> {
    match e
    case Fresh(_, _, context) => Some(context)
    case Sum(a, b) => if Context(a).Some? && Context(a) == Context(b) then Context(a) else None
    case Scaled(a, _) => Context(a)
  }

  ghost predicate MasksVanish(s: Scheme, e: Expr) {
    match e
    case Fresh(_, r, _) => Vanishes(s, r)
    case Sum(a, b) => MasksVanish(s, a) && MasksVanish(s, b)
    case Scaled(a, _) => MasksVanish(s, a)
  }

  lemma AddCarries(s: Scheme, p: nat, q: nat, a: EncryptedData, b: EncryptedData, m: int, k: int)
    requires KeyOf(s, p, q) && Carries(s, SetBytes(a.ciphertext), m) && Carries(s, SetBytes(b.ciphertext), k)
    ensures AddEncrypted(s, a, b).Some? <==> a.context == b.context
    ensures AddEncrypted(s, a, b).Some? ==>
      && AddEncrypted(s, a, b).value.context == a.context
      && Carries(s, SetBytes(AddEncrypted(s, a, b).value.ciphertext), m + k)
  {
    hide Carries, SetBytes, Bytes, Lcm, Cong, ValidPrimes;
    var c, d := SetBytes(a.ciphertext), SetBytes(b.ciphertext);
    CarriesProduct(s, c, d, m, k);
    CarriesReduced(s, c * d, m + k);
    BytesRoundTrip((c * d) % s.n2);
  }

  lemma ScaleCarries(s: Scheme, p: nat, q: nat, a: EncryptedData, m: int, k: int)
    requires KeyOf(s, p, q) && Carries(s, SetBytes(a.ciphertext), m)
    ensures MultiplyByConstant(s, a, k).Some?
    ensures MultiplyByConstant(s, a, k).value.context == a.context
    ensures Carries(s, SetBytes(MultiplyByConstant(s, a, k).value.ciphertext), m * k)
  {
    hide Carries, SetBytes, Bytes, ModExp, Lcm, Cong, ValidPrimes;
    ExpCarries(s, p, q, SetBytes(a.ciphertext), m, k);
    BytesRoundTrip(ModExp(SetBytes(a.ciphertext), k, s.n2).value);
  }

  /** Encrypted bids can be added to each other, and the sum decrypts to the sum of their cents modulo n. */
  lemma BidsAddUp(s: Scheme, p: nat, q: nat, x: real, r: nat, y: real, r': nat)
    requires KeyOf(s, p, q) && Vanishes(s, r) && Vanishes(s, r') && Cents(x) < s.n && Cents(y) < s.n
    ensures EncryptBid(s, x, r).Some? && EncryptBid(s, y, r').Some?
    ensures EncryptBid(s, x, r).value.context == EncryptBid(s, y, r').value.context == "bid_v1"
    ensures var sum := AddEncrypted(s, EncryptBid(s, x, r).value, EncryptBid(s, y, r').value);
      sum.Some? && Decrypt(s, sum.value) == Some((Cents(x) + Cents(y)) % s.n)
  {
    assert s.n2 > 0 by { KeySizes(s, p, q); }
    EncryptedBidCarries(s, p, q, x, r);
    EncryptedBidCarries(s, p, q, y, r');
    assert EncryptBid(s, x, r).value.context == "bid_v1" == EncryptBid(s, y, r').value.context;
    hide *;
    AddCarries(s, p, q, EncryptBid(s, x, r).value, EncryptBid(s, y, r').value, Cents(x), Cents(y));
    var sum := AddEncrypted(s, EncryptBid(s, x, r).value, EncryptBid(s, y, r').value).value;
    DecryptCarried(s, p, q, sum, Cents(x) + Cents(y));
  }

  lemma {:induction false} EvalCarries(s: Scheme, p: nat, q: nat, e: Expr)
    requires KeyOf(s, p, q) && MasksVanish(s, e)
    ensures Eval(s, e).Some? <==> Context(e).Some?
    ensures Eval(s, e).Some? ==> Eval(s, e).value.context == Context(e).value
    ensures Eval(s, e).Some? ==> Carries(s, SetBytes(Eval(s, e).value.ciphertext), Plain(e))
  {
    hide Carries, SetBytes, Bytes, Encrypt, AddEncrypted, MultiplyByConstant, Vanishes, KeyOf;
    assert s.n2 > 0 by { KeySizes(s, p, q); }
    match e
    case Fresh(m, r, _) =>
      EncryptCarries(s, p, q, m, r);
      BytesRoundTrip(Encrypt(s, m, r).value);
    case Sum(a, b) =>
      EvalCarries(s, p, q, a);
      EvalCarries(s, p, q, b);
      if Eval(s, a).Some? && Eval(s, b).Some? {
        AddCarries(s, p, q, Eval(s, a).value, Eval(s, b).value, Plain(a), Plain(b));
      }
    case Scaled(a, k) =>
      EvalCarries(s, p, q, a);
      if Eval(s, a).Some? {
        ScaleCarries(s, p, q, Eval(s, a).value, Plain(a), k);
      }
  }

  /** Homomorphism: any nesting of encrypted sums and multiples, by constants of either sign, decrypts
      to the same sums and multiples of the plaintexts modulo n. */
  lemma Homomorphism(s: Scheme, p: nat, q: nat, e: Expr)
    requires KeyOf(s, p, q) && MasksVanish(s, e) && Context(e).Some?
    ensures Eval(s, e).Some? && Decrypt(s, Eval(s, e).value) == Some(Plain(e) % s.n)
  {
    hide Carries, Eval, Plain, Decrypt, MasksVanish, Context, Lcm, Cong, ValidPrimes;
    EvalCarries(s, p, q, e);
    DecryptCarried(s, p, q, Eval(s, e).value, Plain(e));
  }

  // -------------------------------------------------------------------------------------------
  // The auction

  datatype EncryptedBid = EncryptedBid(bidder: string, data: EncryptedData)

  /** `i` is the first position of the largest value. */
  ghost predicate FirstLargest(values: seq<int>, i: int) {
    && 0 <= i < |values|
    && (forall j :: 0 <= j < |values| ==> values[j] <= values[i])
    && (forall j :: 0 <= j < i ==> values[j] < values[i])
  }

  ghost function Residues(cents: seq<int>, n: nat): seq<int>
    requires n > 0
  {
    seq(|cents|, i requires 0 <= i < |cents| => cents[i] % n)
  }

  /** Encryption succeeds for every plaintext and every mask. */
  lemma EncryptSucceeds(s: Scheme, p: nat, q: nat, m: int, r: nat)
    requires KeyOf(s, p, q)
    ensures Encrypt(s, m, r).Some?
  {
    hide Carries, ModInverse, Lcm, ValidPrimes, Cong;
    GeneratorCarriesOne(s, p, q);
    ExpCarries(s, p, q, s.g, 1, m);
  }

  lemma EncryptBidSucceeds(s: Scheme, p: nat, q: nat, amount: real, r: nat)
    requires KeyOf(s, p, q) && s.n2 > 0
    ensures EncryptBid(s, amount, r).Some? <==> Cents(amount) < s.n
  {
    hide KeyOf, Cents, Encrypt;
    EncryptSucceeds(s, p, q, Cents(amount), r);
  }

  /** What the bid decrypts to; decryption does not fail. */
  ghost function Decrypted(s: Scheme, data: EncryptedData): int
    requires s.n2 > 0 && s.n > 0
  {
    if Decrypt(s, data).Some? then Decrypt(s, data).value else 0
  }

  ghost function Values(s: Scheme, bids: seq<EncryptedBid>): (values: seq<int>)
    requires s.n2 > 0 && s.n > 0
    ensures |values| == |bids| && forall i :: 0 <= i < |bids| ==> values[i] == Decrypted(s, bids[i].data)
  {
    seq(|bids|, i requires 0 <= i < |bids| => Decrypted(s, bids[i].data))
  }

  lemma DecryptSucceeds(s: Scheme, data: EncryptedData)
    requires s.n2 > 0 && s.n > 0
    ensures Decrypt(s, data) == Some(Decrypted(s, data))
  {
  }

  class PrivacyPreservingAuction {
    const scheme: Scheme
    ghost const p: nat
    ghost const q: nat
    var bids: seq<EncryptedBid>
    /** The amounts of the bids, their cents and the masks drawn for them. */
    ghost var amounts: seq<real>
    ghost var cents: seq<int>
    ghost var masks: seq<nat>

    ghost predicate Valid()
      reads this
    {
      && KeyOf(scheme, p, q) && |cents| == |bids| == |masks| == |amounts|
      && (forall i :: 0 <= i < |cents| ==> cents[i] == Cents(amounts[i]) < scheme.n)
      && forall i :: 0 <= i < |bids| && Vanishes(scheme, masks[i]) ==>
           Carries(scheme, SetBytes(bids[i].data.ciphertext), cents[i])
    }

    constructor (scheme: Scheme, ghost p: nat, ghost q: nat)
      requires KeyOf(scheme, p, q)
      ensures Valid() && this.scheme == scheme && this.p == p && this.q == q
      ensures bids == [] && amounts == [] && cents == [] && masks == []
    {
      this.scheme, this.p, this.q := scheme, p, q;
      bids, amounts, cents, masks := [], [], [], [];
    }

    /** Encrypts and appends a bid under whatever mask was drawn, unless it is too large. */
    method SubmitBid(bidder: string, amount: real, r: nat) returns (ok: bool)
      requires Valid()
      modifies this
      ensures Valid() && (ok <==> Cents(amount) < scheme.n)
      ensures ok ==> amounts == old(amounts) + [amount] && masks == old(masks) + [r]
      ensures ok ==> cents == old(cents) + [Cents(amount)]
      ensures ok ==> |bids| == |old(bids)| + 1 && bids[..|old(bids)|] == old(bids) && bids[|old(bids)|].bidder == bidder
      ensures !ok ==> bids == old(bids) && amounts == old(amounts) && cents == old(cents) && masks == old(masks)
    {
      hide KeyOf, Carries, EncryptBid, Cents, Vanishes;
      KeySizes(scheme, p, q);
      var encrypted := EncryptBid(scheme, amount, r);
      EncryptBidSucceeds(scheme, p, q, amount, r);
      if Vanishes(scheme, r) {
        EncryptedBidCarries(scheme, p, q, amount, r);
      }
      ok := encrypted.Some?;
      if ok {
        bids := bids + [EncryptedBid(bidder, encrypted.value)];
        amounts := amounts + [amount];
        cents := cents + [Cents(amount)];
        masks := masks + [r];
      }
    }

    /** Picks the first bidder whose decrypted bid is the largest; fails only without bids. Under masks
        that carry nothing the decrypted bids are the cents modulo n, and then among bids that are not
        negative and whose cents fit 64 bits nobody bid a cent or more above the winner, and nobody who
        bid earlier as many whole cents. */
    method DetermineWinner() returns (winner: Option<string>, ghost i: int, ghost values: seq<int>)
      requires Valid()
      ensures scheme.n > 0 && scheme.n2 > 0
      ensures values == Values(scheme, bids)
      ensures (forall k :: 0 <= k < |masks| ==> Vanishes(scheme, masks[k])) ==> values == Residues(cents, scheme.n)
      ensures bids == [] ==> winner == None
      ensures bids != [] ==> FirstLargest(values, i) && winner == Some(bids[i].bidder)
      ensures bids != [] && (forall k :: 0 <= k < |masks| ==> Vanishes(scheme, masks[k])) && InCents(amounts) ==>
        BidsMost(amounts, i)
    {
      hide KeyOf, Carries, Decrypted, Decrypt, Values, Vanishes, Residues, Cents, BidsMost, InCents;
      KeySizes(scheme, p, q);
      i := 0;
      values := Values(scheme, bids);
      SoundValues(scheme, p, q, bids, cents);
      if |bids| == 0 {
        return None, 0, values;
      }
      var name, maxBid := "", None;
      for k := 0 to |bids|
        invariant k == 0 ==> maxBid == None
        invariant k > 0 ==>
          FirstLargest(values[..k], i) && maxBid == Some(values[i]) && name == bids[i].bidder
      {
        DecryptSucceeds(scheme, bids[k].data);
        var decrypted := Decrypt(scheme, bids[k].data);
        if decrypted.Some? && (maxBid.None? || decrypted.value > maxBid.value) {
          maxBid, name, i := decrypted, bids[k].bidder, k;
        }
      }
      assert values[..|bids|] == values;
      winner := Some(name);
      if (forall k :: 0 <= k < |masks| ==> Vanishes(scheme, masks[k])) && InCents(amounts) {
        LargestCentsBidMost(amounts, cents, scheme.n, i);
      }
    }
  }

  /** No amount is negative or has more cents than fit 64 bits. */
  ghost predicate InCents(amounts: seq<real>) {
    forall i :: 0 <= i < |amounts| ==> 0.0 <= amounts[i] * 100.0 < TWO_TO_THE_63 as real
  }

  /** No amount exceeds the one at `i` by a cent or more, and each earlier one is below its whole cents. */
  ghost predicate BidsMost(amounts: seq<real>, i: int) {
    && 0 <= i < |amounts|
    && (forall j :: 0 <= j < |amounts| ==> amounts[j] < amounts[i] + 0.01)
    && (forall j :: 0 <= j < i ==> FewerCents(amounts[j], amounts[i]))
  }

  ghost predicate FewerCents(x: real, y: real) {
    exists whole: int :: Between(x, whole, y)
  }

  /** `whole` cents are more than `x` and no more than `y`. */
  predicate Between(x: real, whole: int, y: real) {
    x * 100.0 < whole as real <= y * 100.0
  }

  /** The first largest decrypted bid belongs to somebody who bid most, to within a cent. */
  lemma LargestCentsBidMost(amounts: seq<real>, cents: seq<int>, n: nat, i: int)
    requires n > 0 && |cents| == |amounts| && FirstLargest(Residues(cents, n), i) && InCents(amounts)
    requires forall j :: 0 <= j < |cents| ==> cents[j] == Cents(amounts[j]) < n
    ensures BidsMost(amounts, i)
  {
    hide Cents;
    var values := Residues(cents, n);
    forall j | 0 <= j < |cents|
      ensures values[j] == cents[j] && cents[j] as real <= amounts[j] * 100.0 < (cents[j] + 1) as real
    {
      CentsMeaning(amounts[j]);
      ResidueOf(cents[j], n);
    }
    forall j | 0 <= j < |amounts|
      ensures amounts[j] < amounts[i] + 0.01
    {
      assert values[j] <= values[i];
    }
    forall j | 0 <= j < i
      ensures FewerCents(amounts[j], amounts[i])
    {
      assert values[j] < values[i];
      assert Between(amounts[j], cents[i], amounts[i]);
    }
  }

  /** Bids that carry their cents decrypt to the cents modulo n. */
  lemma SoundValues(s: Scheme, p: nat, q: nat, bids: seq<EncryptedBid>, cents: seq<int>)
    requires KeyOf(s, p, q) && s.n > 0 && s.n2 > 0 && |cents| == |bids|
    ensures (forall i :: 0 <= i < |bids| ==> Carries(s, SetBytes(bids[i].data.ciphertext), cents[i])) ==>
      Values(s, bids) == Residues(cents, s.n)
  {
    hide KeyOf, Carries, Decrypt;
    if forall i :: 0 <= i < |bids| ==> Carries(s, SetBytes(bids[i].data.ciphertext), cents[i]) {
      forall k | 0 <= k < |bids|
        ensures Decrypted(s, bids[k].data) == cents[k] % s.n
      {
        DecryptCarried(s, p, q, bids[k].data, cents[k]);
      }
    }
  }

  lemma ResidueOf(c: int, n: nat)
    requires 0 - n < c < n
    ensures c % n == if c >= 0 then c else c + n
  {
    if c >= 0 {
      DivModUnique(c, n, 0, c);
    } else {
      assert n * -1 == 0 - n;
      DivModUnique(c, n, -1, c + n);
    }
  }

  ghost predicate AllNonnegative(cents: seq<int>) {
    forall i :: 0 <= i < |cents| ==> cents[i] >= 0
  }

  ghost predicate AllNegative(cents: seq<int>) {
    forall i :: 0 <= i < |cents| ==> cents[i] < 0
  }

  /** The auction's choice is a bid with the largest plaintext exactly when the bids do not mix signs:
      one negative bid among nonnegative ones wins, because it decrypts to almost n. Cents are 64-bit
      integers and n is far larger. */
  lemma WinnerHasLargestCents(cents: seq<int>, n: nat, i: int)
    requires n >= TWO_TO_THE_64 && FirstLargest(Residues(cents, n), i)
    requires forall j :: 0 <= j < |cents| ==> -TWO_TO_THE_63 <= cents[j] < TWO_TO_THE_63
    ensures FirstLargest(cents, i) <==> AllNonnegative(cents) || AllNegative(cents)
  {
    var values := Residues(cents, n);
    forall j | 0 <= j < |cents|
      ensures values[j] == if cents[j] >= 0 then cents[j] else cents[j] + n
    {
      ResidueOf(cents[j], n);
    }
    if j :| 0 <= j < |cents| && cents[j] < 0 {
      assert values[j] <= values[i];
    }
  }

  /** A bid of minus one cent beats a bid of five. */
  lemma NegativeBidWins(n: nat)
    requires n >= TWO_TO_THE_64
    ensures FirstLargest(Residues([5, -1], n), 1) && !FirstLargest([5, -1], 1)
  {
    ResidueOf(5, n);
    ResidueOf(-1, n);
    assert Residues([5, -1], n) == [5, n - 1];
    assert [5, -1][0] > [5, -1][1];
  }
}
