/** Big-endian bytes of nonnegative integers, as `big.Int` writes and reads them. */
module BigBytes {
  type Byte = x: int | 0 <= x < 256

  function Bytes(x: nat): seq<Byte> {
    if x == 0 then [] else Bytes(x / 256) + [x % 256]
  }

  function SetBytes(b: seq<Byte>): nat {
    if b == [] then 0 else SetBytes(b[..|b| - 1]) * 256 + b[|b| - 1]
  }

  lemma {:induction false} BytesRoundTrip(x: nat)
    ensures SetBytes(Bytes(x)) == x
  {
    if x > 0 {
      BytesRoundTrip(x / 256);
      var b := Bytes(x);
      assert b[..|b| - 1] == Bytes(x / 256);
    }
  }

  /** Adding one makes the encoding at most one byte longer, and never shorter. */
  lemma {:induction false} SuccessorLength(x: nat)
    ensures |Bytes(x)| <= |Bytes(x + 1)| <= |Bytes(x)| + 1
  {
    if x > 0 {
      if x % 256 == 255 {
        assert (x + 1) / 256 == x / 256 + 1;
        SuccessorLength(x / 256);
      } else {
        assert (x + 1) / 256 == x / 256;
      }
    } else {
      assert Bytes(1) == Bytes(0) + [1];
    }
  }

  datatype PublicKey = PublicKey(n: nat, g: nat)

  /** Modulus and generator one after the other, without their lengths. */
  function ExportPublicKey(key: PublicKey): seq<Byte> {
    Bytes(key.n) + Bytes(key.g)
  }

  /** Splits the data in the middle. */
  function ImportPublicKey(data: seq<Byte>): PublicKey {
    var mid := |data| / 2;
    PublicKey(SetBytes(data[..mid]), SetBytes(data[mid..]))
  }

  /** Every key of the scheme, whose generator is n + 1, is read back unchanged. */
  lemma KeyRoundTrip(n: nat)
    ensures ImportPublicKey(ExportPublicKey(PublicKey(n, n + 1))) == PublicKey(n, n + 1)
  {
    hide Bytes, SetBytes;
    SuccessorLength(n);
    SplitRestoresKey(n, n + 1);
  }

  lemma SplitRestoresKey(n: nat, g: nat)
    requires |Bytes(n)| <= |Bytes(g)| <= |Bytes(n)| + 1
    ensures ImportPublicKey(ExportPublicKey(PublicKey(n, g))) == PublicKey(n, g)
  {
    hide Bytes, SetBytes;
    var data := ExportPublicKey(PublicKey(n, g));
    assert |data| / 2 == |Bytes(n)|;
    assert data[..|Bytes(n)|] == Bytes(n) && data[|Bytes(n)|..] == Bytes(g);
    BytesRoundTrip(n);
    BytesRoundTrip(g);
  }

  lemma {:induction false} BytesLength(b: seq<Byte>)
    ensures |Bytes(SetBytes(b))| <= |b|
  {
    if b != [] {
      var n := |b| - 1;
      BytesLength(b[..n]);
      var x := SetBytes(b[..n]);
      assert SetBytes(b) == x * 256 + b[n];
      assert (x * 256 + b[n]) / 256 == x && (x * 256 + b[n]) % 256 == b[n];
    }
  }

  /** For arbitrary numbers the middle of the data is the right place to split exactly when the second
      number takes as many bytes as the first, or one more. */
  lemma KeyRoundTripExactly(key: PublicKey)
    ensures ImportPublicKey(ExportPublicKey(key)) == key <==> |Bytes(key.n)| <= |Bytes(key.g)| <= |Bytes(key.n)| + 1
  {
    hide Bytes, SetBytes;
    var data := ExportPublicKey(key);
    var mid := |data| / 2;
    if |Bytes(key.n)| <= |Bytes(key.g)| <= |Bytes(key.n)| + 1 {
      SplitRestoresKey(key.n, key.g);
    } else if ImportPublicKey(data) == key {
      BytesLength(data[..mid]);
      BytesLength(data[mid..]);
    }
  }
}
