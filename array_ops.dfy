/** The PHP array idioms the commands build their lists and dictionaries with:
    the `array_reduce`/`in_array` de-duplication (and `array_unique` on a list),
    `array_combine`, and `array_map` over a list. */
module ArrayOps {

  /** No value occurs twice. */
  predicate Distinct<T(==)>(xs: seq<T>) {
    forall i, j :: 0 <= i < j < |xs| ==> xs[i] != xs[j]
  }

  /** Position of the first occurrence of `x` in `xs`. */
  function FirstIndex<T(==)>(xs: seq<T>, x: T): (i: nat)
    requires x in xs
    ensures i < |xs| && xs[i] == x && x !in xs[..i]
  {
    if xs[0] == x then 0 else 1 + FirstIndex(xs[1..], x)
  }

  /** `array_reduce($xs, fn($acc, $x) => in_array($x, $acc) ? $acc : [...$acc, $x], [])`:
      walk the list from the left and append every value not yet collected.
      `array_unique` on a list keeps the same values in the same order. */
  function Dedup<T(==, !new)>(xs: seq<T>): (r: seq<T>)
    ensures forall x :: x in r <==> x in xs
    ensures Distinct(r)
  {
    if xs == [] then []
    else
      var d := Dedup(xs[..|xs| - 1]);
      var x := xs[|xs| - 1];
      assert xs == xs[..|xs| - 1] + [x];
      if x in d then d else d + [x]
  }

  lemma {:induction false} FirstIndexOfPrefix<T>(ys: seq<T>, z: T, x: T)
    requires x in ys
    ensures FirstIndex(ys + [z], x) == FirstIndex(ys, x)
  {
    if ys[0] != x {
      assert (ys + [z])[1..] == ys[1..] + [z];
      FirstIndexOfPrefix(ys[1..], z, x);
    }
  }

  lemma {:induction false} FirstIndexOfLast<T>(ys: seq<T>, z: T)
    requires z !in ys
    ensures FirstIndex(ys + [z], z) == |ys|
  {
    if ys != [] {
      assert (ys + [z])[1..] == ys[1..] + [z];
      FirstIndexOfLast(ys[1..], z);
    }
  }

  /** The de-duplicated list keeps the values in the order of their first
      occurrence in the input. */
  lemma {:induction false} DedupKeepsFirstOccurrenceOrder<T(!new)>(xs: seq<T>)
    ensures forall i, j :: 0 <= i < j < |Dedup(xs)| ==> FirstIndex(xs, Dedup(xs)[i]) < FirstIndex(xs, Dedup(xs)[j])
  {
    if xs != [] {
      var ys, z := xs[..|xs| - 1], xs[|xs| - 1];
      assert xs == ys + [z];
      DedupKeepsFirstOccurrenceOrder(ys);
      var d := Dedup(ys);
      forall x | x in d ensures FirstIndex(xs, x) == FirstIndex(ys, x) {
        FirstIndexOfPrefix(ys, z, x);
      }
      if z !in d {
        FirstIndexOfLast(ys, z);
        var r := d + [z];
        forall i, j | 0 <= i < j < |r| ensures FirstIndex(xs, r[i]) < FirstIndex(xs, r[j]) {
          assert r[i] == d[i] && d[i] in d;
          if j == |d| {
            assert r[j] == z;
            assert FirstIndex(xs, r[i]) == FirstIndex(ys, r[i]) < |ys|;
          } else {
            assert r[j] == d[j] && d[j] in d;
            assert FirstIndex(xs, r[i]) == FirstIndex(ys, d[i]) < FirstIndex(ys, d[j]) == FirstIndex(xs, r[j]);
          }
        }
        assert Dedup(xs) == r;
      } else {
        assert Dedup(xs) == d;
        forall i, j | 0 <= i < j < |d| ensures FirstIndex(xs, d[i]) < FirstIndex(xs, d[j]) {
          assert d[i] in d && d[j] in d;
        }
      }
    }
  }

  /** `array_map($f, $xs)` on a list. */
  function MapSeq<A, B>(f: A -> B, xs: seq<A>): (r: seq<B>)
    ensures |r| == |xs|
    ensures forall i :: 0 <= i < |xs| ==> r[i] == f(xs[i])
  {
    if xs == [] then [] else [f(xs[0])] + MapSeq(f, xs[1..])
  }

  /** `array_combine($keys, $values)`: the i-th key maps to the i-th value, a later
      duplicate key overwriting an earlier one. PHP throws when the lengths differ. */
  function Combine<K(==, !new), V>(keys: seq<K>, values: seq<V>): (m: map<K, V>)
    requires |keys| == |values|
    ensures forall k :: k in m <==> k in keys
  {
    if keys == [] then map[]
    else
      var n := |keys| - 1;
      assert keys == keys[..n] + [keys[n]];
      Combine(keys[..n], values[..n])[keys[n] := values[n]]
  }

  /** A key of the combined map is bound to the value paired with its LAST
      occurrence among the keys. */
  lemma {:induction false} CombineLastWins<K(!new), V>(keys: seq<K>, values: seq<V>, i: nat)
    requires |keys| == |values| && i < |keys|
    requires keys[i] !in keys[i + 1..]
    ensures keys[i] in Combine(keys, values) && Combine(keys, values)[keys[i]] == values[i]
  {
    var n := |keys| - 1;
    if i < n {
      assert keys[n] in keys[i + 1..];
      assert keys[..n][i + 1..] == keys[i + 1..n];
      CombineLastWins(keys[..n], values[..n], i);
    }
  }

  /** A `foreach` that stores every element under its key, `$m[key($x)] = val($x)`,
      starting from an empty dictionary: a later element with the same key
      overwrites an earlier one. */
  function IndexBy<T, K(==, !new), V>(xs: seq<T>, key: T -> K, val: T -> V): (m: map<K, V>)
    ensures forall i :: 0 <= i < |xs| ==> key(xs[i]) in m
    ensures forall k :: k in m ==> exists i :: 0 <= i < |xs| && key(xs[i]) == k
  {
    if xs == [] then map[]
    else
      var n := |xs| - 1;
      var m := IndexBy(xs[..n], key, val);
      assert forall i :: 0 <= i < n ==> xs[..n][i] == xs[i];
      m[key(xs[n]) := val(xs[n])]
  }

  /** The value stored under a key is the one of the LAST element with that key. */
  lemma {:induction false} IndexByLastWins<T, K(!new), V>(xs: seq<T>, key: T -> K, val: T -> V, i: nat)
    requires i < |xs|
    requires forall j :: i < j < |xs| ==> key(xs[j]) != key(xs[i])
    ensures IndexBy(xs, key, val)[key(xs[i])] == val(xs[i])
  {
    var n := |xs| - 1;
    var ys := xs[..n];
    assert IndexBy(xs, key, val) == IndexBy(ys, key, val)[key(xs[n]) := val(xs[n])];
    if i < n {
      assert ys[i] == xs[i] && key(xs[n]) != key(xs[i]);
      forall j | i < j < |ys| ensures key(ys[j]) != key(ys[i]) {
        assert ys[j] == xs[j];
      }
      IndexByLastWins(ys, key, val, i);
    }
  }

  /** One more step of the `foreach` stores one more element on top of the
      dictionary built so far. */
  lemma IndexByExtend<T, K(!new), V>(m: map<K, V>, xs: seq<T>, key: T -> K, val: T -> V, i: nat)
    requires i < |xs|
    ensures m + IndexBy(xs[..i + 1], key, val) == (m + IndexBy(xs[..i], key, val))[key(xs[i]) := val(xs[i])]
  {
    assert xs[..i + 1][..i] == xs[..i];
  }

  /** `a` is `b` with some elements left out, the rest in their order. */
  predicate Subsequence<T(==)>(a: seq<T>, b: seq<T>) {
    if a == [] then true
    else if b == [] then false
    else (a[0] == b[0] && Subsequence(a[1..], b[1..])) || Subsequence(a, b[1..])
  }

  lemma {:induction false} SubsequenceOfExtended<T>(a: seq<T>, b: seq<T>, x: T)
    requires Subsequence(a, b)
    ensures Subsequence(a, [x] + b)
  {
    if a != [] {
      assert ([x] + b)[1..] == b;
    }
  }
}
