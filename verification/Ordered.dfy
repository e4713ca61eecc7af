/** The order of `std::string`, and walking a `std::map`'s or a `std::set`'s keys in it. */
module Ordered {
  import opened Bytes

  predicate Below(a: Bytes, b: Bytes) {
    b != [] && (a == [] || a[0] < b[0] || (a[0] == b[0] && Below(a[1..], b[1..])))
  }

  // Where the two first differ the byte is less, or the first text ends there.
  predicate FirstDiffers(a: Bytes, b: Bytes, k: nat) {
    k <= |a| && k < |b| && a[..k] == b[..k] && (k == |a| || a[k] < b[k])
  }

  lemma {:induction false} BelowExactly(a: Bytes, b: Bytes)
    ensures Below(a, b) <==> exists k: nat :: FirstDiffers(a, b, k)
  {
    if b == [] {
    } else if a == [] || a[0] < b[0] {
      assert FirstDiffers(a, b, 0);
    } else {
      BelowExactly(a[1..], b[1..]);
      if k: nat :| FirstDiffers(a[1..], b[1..], k) && a[0] == b[0] {
        assert a[..k + 1] == [a[0]] + a[1..][..k] && b[..k + 1] == [b[0]] + b[1..][..k];
        assert FirstDiffers(a, b, k + 1);
      }
      if k: nat :| FirstDiffers(a, b, k) {
        if k > 0 {
          assert a[0] == a[..k][0] == b[..k][0] == b[0];
          assert a[1..][..k - 1] == a[..k][1..] == b[..k][1..] == b[1..][..k - 1];
          assert FirstDiffers(a[1..], b[1..], k - 1);
        }
      }
    }
  }

  lemma {:induction false} BelowTotal(a: Bytes, b: Bytes)
    ensures a == b || Below(a, b) || Below(b, a)
  {
    if a != [] && b != [] && a[0] == b[0] {
      BelowTotal(a[1..], b[1..]);
      assert a == [a[0]] + a[1..] && b == [b[0]] + b[1..];
    }
  }

  lemma {:induction false} BelowTransitive(a: Bytes, b: Bytes, c: Bytes)
    requires Below(a, b) && Below(b, c)
    ensures Below(a, c)
  {
    if a != [] && a[0] == b[0] == c[0] {
      BelowTransitive(a[1..], b[1..], c[1..]);
    }
  }

  lemma {:induction false} BelowStrict(a: Bytes)
    ensures !Below(a, a)
  {
    if a != [] {
      BelowStrict(a[1..]);
    }
  }

  lemma {:induction false} NotBelowBoth(a: Bytes, b: Bytes)
    ensures !Below(a, b) || !Below(b, a)
    ensures !Below(a, b) && !Below(b, a) ==> a == b
  {
    BelowStrict(a);
    BelowTotal(a, b);
    if Below(a, b) && Below(b, a) {
      BelowTransitive(a, b, a);
    }
  }

  lemma {:induction false} NotBelowTransitive(a: Bytes, b: Bytes, c: Bytes)
    requires !Below(b, a) && !Below(c, b)
    ensures !Below(c, a)
  {
    NotBelowBoth(a, b);
    NotBelowBoth(b, c);
    NotBelowBoth(a, c);
    if a != b && b != c {
      BelowTotal(a, b);
      BelowTotal(b, c);
      BelowTransitive(a, b, c);
    }
  }

  ghost predicate Least(k: Bytes, keys: set<Bytes>) {
    k in keys && forall j :: j in keys && j != k ==> Below(k, j)
  }

  lemma {:induction false} LeastExists(keys: set<Bytes>) returns (least: Bytes)
    requires keys != {}
    ensures Least(least, keys)
    decreases |keys|
  {
    hide Below;
    var x :| x in keys;
    var rest := keys - {x};
    least := x;
    if rest != {} {
      var k := LeastExists(rest);
      BelowTotal(x, k);
      if Below(x, k) {
        forall j | j in rest && j != k
          ensures Below(x, j)
        {
          BelowTransitive(x, k, j);
        }
      } else {
        least := k;
      }
    }
    assert keys == {x} + rest;
  }

  ghost predicate Ascending(order: seq<Bytes>) {
    forall i, j :: 0 <= i < j < |order| ==> Below(order[i], order[j])
  }

  method Walk(keys: set<Bytes>) returns (order: seq<Bytes>)
    ensures Ascending(order) && |order| == |keys|
    ensures forall k :: k in order <==> k in keys
  {
    hide Below;
    order := [];
    var left := keys;
    while left != {}
      invariant left <= keys && |order| + |left| == |keys|
      invariant forall k :: k in order <==> k in keys && k !in left
      invariant Ascending(order)
      invariant forall i, k :: 0 <= i < |order| && k in left ==> Below(order[i], k)
    {
      ghost var least := LeastExists(left);
      assert least in left;
      var k :| k in left && forall j :: j in left && j != k ==> Below(k, j);
      order := order + [k];
      left := left - {k};
    }
  }
}
