/**
 * Insertion-ordered grouping, the shape shared by the sha map of the
 * commit-list route and by the timeline's group-by. An element's key decides
 * its group; keys keep the order of their first occurrence (the iteration
 * order of a JavaScript `Map`); each group keeps its elements in input order.
 */
module Groups {

  /** The key of every element, in input order. */
  function KeysOf<T, K>(xs: seq<T>, key: T -> K): (ks: seq<K>)
    ensures |ks| == |xs|
    ensures forall i :: 0 <= i < |xs| ==> ks[i] == key(xs[i])
  {
    if xs == [] then [] else KeysOf(xs[..|xs| - 1], key) + [key(xs[|xs| - 1])]
  }

  predicate NoDuplicates<K(==)>(ks: seq<K>) {
    forall i, j :: 0 <= i < j < |ks| ==> ks[i] != ks[j]
  }

  /** The distinct elements of ks, in the order of their first occurrence. */
  function Distinct<K(==,!new)>(ks: seq<K>): (ds: seq<K>)
    ensures NoDuplicates(ds)
    ensures forall k :: k in ds <==> k in ks
    ensures |ds| <= |ks|
  {
    if ks == [] then []
    else
      var seen := Distinct(ks[..|ks| - 1]);
      var k := ks[|ks| - 1];
      assert ks == ks[..|ks| - 1] + [k];
      if k in seen then seen else seen + [k]
  }

  /** The position of the first occurrence of k in ks. */
  function FirstIndex<K(==)>(ks: seq<K>, k: K): (i: nat)
    requires k in ks
    ensures i < |ks| && ks[i] == k
    ensures forall j :: 0 <= j < i ==> ks[j] != k
  {
    if ks[0] == k then 0 else 1 + FirstIndex(ks[1..], k)
  }

  /** The elements of xs whose key is k, in input order. */
  function Members<T(!new), K(==)>(xs: seq<T>, key: T -> K, k: K): (m: seq<T>)
    ensures |m| <= |xs|
  {
    if xs == [] then []
    else
      var x := xs[|xs| - 1];
      var rest := Members(xs[..|xs| - 1], key, k);
      assert xs == xs[..|xs| - 1] + [x];
      if key(x) == k then rest + [x] else rest
  }

  /** The sum of the sizes of the groups named by ks. */
  function TotalSize<T(!new), K(==)>(xs: seq<T>, key: T -> K, ks: seq<K>): nat {
    if ks == [] then 0 else TotalSize(xs, key, ks[..|ks| - 1]) + |Members(xs, key, ks[|ks| - 1])|
  }

  lemma KeysOfAppend<T(!new), K(!new)>(xs: seq<T>, x: T, key: T -> K)
    ensures KeysOf(xs + [x], key) == KeysOf(xs, key) + [key(x)]
  {
    assert (xs + [x])[..|xs|] == xs;
  }

  lemma DistinctAppend<K(!new)>(ks: seq<K>, k: K)
    ensures Distinct(ks + [k]) == if k in Distinct(ks) then Distinct(ks) else Distinct(ks) + [k]
  {
    assert (ks + [k])[..|ks|] == ks;
  }

  lemma MembersAppend<T(!new), K(!new)>(xs: seq<T>, x: T, key: T -> K, k: K)
    ensures Members(xs + [x], key, k) == Members(xs, key, k) + (if key(x) == k then [x] else [])
  {
    assert (xs + [x])[..|xs|] == xs;
  }

  lemma FirstIndexAppend<K(!new)>(ks: seq<K>, k: K, x: K)
    ensures x in ks ==> FirstIndex(ks + [k], x) == FirstIndex(ks, x)
    ensures x !in ks && x == k ==> FirstIndex(ks + [k], x) == |ks|
  {
    if x in ks {
      var a, b := FirstIndex(ks + [k], x), FirstIndex(ks, x);
      assert (ks + [k])[b] == x;
      assert a <= b;
      assert ks[a] == x;
    } else if x == k {
      assert (ks + [k])[|ks|] == x;
    }
  }

  /** Distinct lists the keys in increasing order of their first occurrence. */
  lemma {:induction false} DistinctInFirstOccurrenceOrder<K(!new)>(ks: seq<K>, i: nat, j: nat)
    requires i < j < |Distinct(ks)|
    ensures FirstIndex(ks, Distinct(ks)[i]) < FirstIndex(ks, Distinct(ks)[j])
  {
    var p, k := ks[..|ks| - 1], ks[|ks| - 1];
    assert ks == p + [k];
    DistinctAppend(p, k);
    var dp := Distinct(p);
    var di, dj := Distinct(ks)[i], Distinct(ks)[j];
    FirstIndexAppend(p, k, di);
    FirstIndexAppend(p, k, dj);
    if j < |dp| {
      DistinctInFirstOccurrenceOrder(p, i, j);
    } else {
      assert dj == k && k !in p;
      assert di in p;
    }
  }

  /** A group is non-empty exactly when its key occurs in the input. */
  lemma {:induction false} MembersNonEmpty<T(!new), K(!new)>(xs: seq<T>, key: T -> K, k: K)
    ensures |Members(xs, key, k)| > 0 <==> k in KeysOf(xs, key)
  {
    if xs != [] {
      var p, x := xs[..|xs| - 1], xs[|xs| - 1];
      assert xs == p + [x];
      MembersAppend(p, x, key, k);
      KeysOfAppend(p, x, key);
      MembersNonEmpty(p, key, k);
    }
  }

  /** Every member of group k has key k. */
  lemma {:induction false} MembersHaveKey<T(!new), K(!new)>(xs: seq<T>, key: T -> K, k: K)
    ensures forall x :: x in Members(xs, key, k) ==> key(x) == k
  {
    if xs != [] {
      var p, x := xs[..|xs| - 1], xs[|xs| - 1];
      assert xs == p + [x];
      MembersAppend(p, x, key, k);
      MembersHaveKey(p, key, k);
    }
  }

  /** When every element has key k, group k is the whole input. */
  lemma {:induction false} MembersOfUniform<T(!new), K(!new)>(xs: seq<T>, key: T -> K, k: K)
    requires forall i :: 0 <= i < |xs| ==> key(xs[i]) == k
    ensures Members(xs, key, k) == xs
  {
    if xs != [] {
      var p := xs[..|xs| - 1];
      assert xs == p + [xs[|xs| - 1]];
      MembersAppend(p, xs[|xs| - 1], key, k);
      MembersOfUniform(p, key, k);
    }
  }

  /** When no element has key k, group k is empty. */
  lemma {:induction false} MembersOfNone<T(!new), K(!new)>(xs: seq<T>, key: T -> K, k: K)
    requires forall i :: 0 <= i < |xs| ==> key(xs[i]) != k
    ensures Members(xs, key, k) == []
  {
    if xs != [] {
      var p := xs[..|xs| - 1];
      assert xs == p + [xs[|xs| - 1]];
      MembersAppend(p, xs[|xs| - 1], key, k);
      MembersOfNone(p, key, k);
    }
  }

  /** Grouping a concatenation groups each part: order within a group is input order. */
  lemma {:induction false} MembersConcat<T(!new), K(!new)>(a: seq<T>, b: seq<T>, key: T -> K, k: K)
    ensures Members(a + b, key, k) == Members(a, key, k) + Members(b, key, k)
  {
    if b == [] {
      assert a + b == a;
    } else {
      var p, y := b[..|b| - 1], b[|b| - 1];
      assert b == p + [y];
      assert a + b == (a + p) + [y];
      MembersAppend(a + p, y, key, k);
      MembersAppend(p, y, key, k);
      MembersConcat(a, p, key, k);
    }
  }

  lemma {:induction false} TotalSizeGrows<T(!new), K(!new)>(xs: seq<T>, x: T, key: T -> K, ks: seq<K>)
    requires NoDuplicates(ks)
    ensures TotalSize(xs + [x], key, ks) == TotalSize(xs, key, ks) + (if key(x) in ks then 1 else 0)
  {
    if ks != [] {
      var p, k := ks[..|ks| - 1], ks[|ks| - 1];
      assert ks == p + [k];
      assert NoDuplicates(p);
      assert k !in p;
      MembersAppend(xs, x, key, k);
      TotalSizeGrows(xs, x, key, p);
    }
  }

  /** Every element lands in exactly one group: the group sizes add up to the input size. */
  lemma {:induction false} GroupSizesSum<T(!new), K(!new)>(xs: seq<T>, key: T -> K)
    ensures TotalSize(xs, key, Distinct(KeysOf(xs, key))) == |xs|
  {
    if xs != [] {
      var p, x := xs[..|xs| - 1], xs[|xs| - 1];
      assert xs == p + [x];
      KeysOfAppend(p, x, key);
      var d := Distinct(KeysOf(p, key));
      DistinctAppend(KeysOf(p, key), key(x));
      GroupSizesSum(p, key);
      TotalSizeGrows(p, x, key, d);
      if key(x) !in d {
        var d' := d + [key(x)];
        assert d'[..|d'| - 1] == d;
        MembersAppend(p, x, key, key(x));
        MembersNonEmpty(p, key, key(x));
      }
    }
  }
}
