/** Sorting by a numeric key. The library sorts that the repository calls promise no order between
    equal keys, and neither does this contract. */
module Sorting {
  predicate SortedBy<T>(s: seq<T>, key: T -> real) {
    forall i, j :: 0 <= i <= j < |s| ==> key(s[i]) <= key(s[j])
  }

  function InsertAt<T>(s: seq<T>, k: nat, x: T): (r: seq<T>)
    requires k <= |s|
    ensures |r| == |s| + 1 && r[k] == x
    ensures forall i :: 0 <= i < k ==> r[i] == s[i]
    ensures forall i :: k < i < |r| ==> r[i] == s[i - 1]
  {
    s[..k] + [x] + s[k..]
  }

  lemma InsertAtContents<T>(s: seq<T>, k: nat, x: T)
    requires k <= |s|
    ensures multiset(InsertAt(s, k, x)) == multiset(s) + multiset{x}
  {
    assert s == s[..k] + s[k..];
  }

  lemma InsertAtSorted<T>(s: seq<T>, k: nat, x: T, key: T -> real)
    requires SortedBy(s, key) && k <= |s|
    requires k > 0 ==> key(s[k - 1]) <= key(x)
    requires k < |s| ==> key(x) <= key(s[k])
    ensures SortedBy(InsertAt(s, k, x), key)
  {
    var r := InsertAt(s, k, x);
    forall i, j | 0 <= i <= j < |r|
      ensures key(r[i]) <= key(r[j])
    {
      if i < k && k <= j {
        assert key(s[i]) <= key(s[k - 1]);
      }
      if i <= k && k < j {
        assert key(s[k]) <= key(s[j - 1]);
      }
    }
  }

  method Insert<T>(s: seq<T>, x: T, key: T -> real) returns (r: seq<T>)
    requires SortedBy(s, key)
    ensures SortedBy(r, key) && multiset(r) == multiset(s) + multiset{x}
  {
    hide SortedBy;
    var k := |s|;
    while k > 0 && key(x) < key(s[k - 1])
      invariant 0 <= k <= |s|
      invariant k < |s| ==> key(x) < key(s[k])
    {
      k := k - 1;
    }
    InsertAtContents(s, k, x);
    InsertAtSorted(s, k, x, key);
    r := InsertAt(s, k, x);
  }

  method Sort<T>(a: seq<T>, key: T -> real) returns (s: seq<T>)
    ensures SortedBy(s, key) && multiset(s) == multiset(a)
  {
    s := [];
    for i := 0 to |a|
      invariant SortedBy(s, key) && multiset(s) == multiset(a[..i])
    {
      s := Insert(s, a[i], key);
      assert a[..i + 1] == a[..i] + [a[i]];
    }
    assert a[..|a|] == a;
  }

  /** Members of equal multisets at equal sizes. */
  lemma SameMembers<T>(a: seq<T>, b: seq<T>)
    requires multiset(a) == multiset(b)
    ensures |a| == |b| && (forall x :: x in a <==> x in b)
  {
    assert |multiset(a)| == |a| && |multiset(b)| == |b|;
    assert forall x :: x in a <==> x in multiset(a);
    assert forall x :: x in b <==> x in multiset(b);
  }

  function Identity(): real -> real { (x: real) => x }

  lemma DropLast<T>(a: seq<T>)
    requires a != []
    ensures multiset(a[..|a| - 1]) == multiset(a) - multiset{a[|a| - 1]}
  {
    assert a == a[..|a| - 1] + [a[|a| - 1]];
  }

  lemma LastIsLargest(a: seq<real>, b: seq<real>)
    requires SortedBy(a, Identity()) && multiset(a) == multiset(b) && a != [] && b != []
    ensures b[|b| - 1] <= a[|a| - 1]
  {
    SameMembers(a, b);
    assert b[|b| - 1] in a;
    var i :| 0 <= i < |a| && a[i] == b[|b| - 1];
    assert Identity()(a[i]) <= Identity()(a[|a| - 1]);
  }

  /** A list of numbers has one sorted arrangement only. */
  lemma {:induction false} SortedIsUnique(a: seq<real>, b: seq<real>)
    requires SortedBy(a, Identity()) && SortedBy(b, Identity()) && multiset(a) == multiset(b)
    ensures a == b
    decreases |a|
  {
    SameMembers(a, b);
    if a != [] {
      var n := |a| - 1;
      LastIsLargest(a, b);
      LastIsLargest(b, a);
      DropLast(a);
      DropLast(b);
      SortedIsUnique(a[..n], b[..n]);
      assert a == a[..n] + [a[n]] && b == b[..n] + [b[n]];
    }
  }
}
