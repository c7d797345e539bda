/** Generic sequence operations used throughout the model: JavaScript's
    `Array.prototype.filter`, `map`, `slice` and a numeric `reduce`. */
module Seqs {

  /** `s.filter(p)`: the elements of `s` that satisfy `p`, in their original order. */
  function Filter<T(!new)>(s: seq<T>, p: T -> bool): (r: seq<T>)
    ensures |r| <= |s|
    decreases |s|
  {
    if s == [] then []
    else Filter(s[..|s| - 1], p) + (if p(s[|s| - 1]) then [s[|s| - 1]] else [])
  }

  /** The indices of the elements of `s` that satisfy `p`, in increasing order:
      the positions that `Filter(s, p)` keeps. */
  function Positions<T(!new)>(s: seq<T>, p: T -> bool): (r: seq<nat>)
    ensures |r| == |Filter(s, p)|
    ensures forall k :: 0 <= k < |r| ==> r[k] < |s| && s[r[k]] == Filter(s, p)[k] && p(s[r[k]])
    ensures forall k, l :: 0 <= k < l < |r| ==> r[k] < r[l]
    decreases |s|
  {
    if s == [] then []
    else
      var n := |s| - 1;
      assert s[..n] + [s[n]] == s;
      Positions(s[..n], p) + (if p(s[n]) then [n] else [])
  }

  /** `s.map(f)`. */
  function Map<A, B>(s: seq<A>, f: A -> B): (r: seq<B>)
    ensures |r| == |s|
    ensures forall i :: 0 <= i < |s| ==> r[i] == f(s[i])
  {
    seq(|s|, i requires 0 <= i < |s| => f(s[i]))
  }

  /** `s.reduce((a, b) => a + b, 0)`, folding from the left. */
  function Sum(s: seq<int>): int
    decreases |s|
  {
    if s == [] then 0 else Sum(s[..|s| - 1]) + s[|s| - 1]
  }

  /** `s.slice(0, n)`. */
  function Take<T>(s: seq<T>, n: nat): (r: seq<T>)
    ensures |r| == if |s| <= n then |s| else n
    ensures r == s[..|r|]
  {
    if |s| <= n then s else s[..n]
  }

  /** `Filter(s, p)` holds exactly the elements of `s` that satisfy `p`. */
  lemma {:induction false} FilterMembers<T(!new)>(s: seq<T>, p: T -> bool)
    ensures forall x :: x in Filter(s, p) <==> x in s && p(x)
    decreases |s|
  {
    if s != [] {
      var n := |s| - 1;
      FilterMembers(s[..n], p);
      assert s == s[..n] + [s[n]];
    }
  }

  /** Filtering a concatenation filters each part. */
  lemma {:induction false} FilterAppend<T(!new)>(a: seq<T>, b: seq<T>, p: T -> bool)
    ensures Filter(a + b, p) == Filter(a, p) + Filter(b, p)
    decreases |b|
  {
    if b == [] {
      assert a + b == a;
    } else {
      var n := |b| - 1;
      assert (a + b)[..|a + b| - 1] == a + b[..n];
      FilterAppend(a, b[..n], p);
    }
  }

  /** Filtering a one-element sequence. */
  lemma FilterSingleton<T(!new)>(x: T, p: T -> bool)
    ensures Filter([x], p) == if p(x) then [x] else []
  {
    assert [x][..0] == [];
  }

  /** Mapping a sequence that starts with `x`. */
  lemma MapCons<A, B>(x: A, s: seq<A>, f: A -> B)
    ensures Map([x] + s, f) == [f(x)] + Map(s, f)
  {
    assert ([x] + s)[0] == x;
    forall i | 0 < i < |s| + 1 ensures ([x] + s)[i] == s[i - 1] {
    }
  }

  /** Filtering keeps everything when every element qualifies. */
  lemma {:induction false} FilterAll<T(!new)>(s: seq<T>, p: T -> bool)
    requires forall i :: 0 <= i < |s| ==> p(s[i])
    ensures Filter(s, p) == s
    decreases |s|
  {
    if s != [] {
      var n := |s| - 1;
      FilterAll(s[..n], p);
      assert s[..n] + [s[n]] == s;
    }
  }

  /** Filtering keeps nothing when no element qualifies. */
  lemma {:induction false} FilterNone<T(!new)>(s: seq<T>, p: T -> bool)
    requires forall i :: 0 <= i < |s| ==> !p(s[i])
    ensures Filter(s, p) == []
    decreases |s|
  {
    if s != [] {
      FilterNone(s[..|s| - 1], p);
    }
  }

  /** Filtering commutes with mapping when the predicate looks only at the image. */
  lemma {:induction false} FilterMap<A(!new), B(!new)>(s: seq<A>, f: A -> B, p: B -> bool, q: A -> bool)
    requires forall i :: 0 <= i < |s| ==> q(s[i]) == p(f(s[i]))
    ensures Map(Filter(s, q), f) == Filter(Map(s, f), p)
    decreases |s|
  {
    if s != [] {
      var n := |s| - 1;
      FilterMap(s[..n], f, p, q);
      assert Map(s, f)[..n] == Map(s[..n], f);
      assert Map(Filter(s[..n], q) + (if q(s[n]) then [s[n]] else []), f)
          == Map(Filter(s[..n], q), f) + (if q(s[n]) then [f(s[n])] else []);
    }
  }

  /** Filtering twice is filtering once by both predicates. */
  lemma {:induction false} FilterFilter<T(!new)>(s: seq<T>, p: T -> bool, q: T -> bool, both: T -> bool)
    requires forall i :: 0 <= i < |s| ==> both(s[i]) == (p(s[i]) && q(s[i]))
    ensures Filter(Filter(s, p), q) == Filter(s, both)
    decreases |s|
  {
    if s != [] {
      var n := |s| - 1;
      FilterFilter(s[..n], p, q, both);
      var tail := if p(s[n]) then [s[n]] else [];
      FilterAppend(Filter(s[..n], p), tail, q);
    }
  }

  /** Element `i` of `s`, if it satisfies `p`, is the element of `Filter(s, p)` at
      the position given by the number of qualifying elements before it. */
  lemma {:induction false} PositionOf<T(!new)>(s: seq<T>, p: T -> bool, i: nat)
    requires i < |s| && p(s[i])
    ensures |Filter(s[..i], p)| < |Filter(s, p)|
    ensures Positions(s, p)[|Filter(s[..i], p)|] == i
    ensures Filter(s, p)[|Filter(s[..i], p)|] == s[i]
    decreases |s|
  {
    var n := |s| - 1;
    if i < n {
      assert s[..n][..i] == s[..i];
      PositionOf(s[..n], p, i);
    } else {
      assert s[..i] == s[..n];
    }
  }

  /** Every position of an element that satisfies `p` is one of `Positions(s, p)`. */
  lemma PositionsComplete<T(!new)>(s: seq<T>, p: T -> bool)
    ensures forall i :: 0 <= i < |s| && p(s[i]) ==> i in Positions(s, p)
  {
    forall i | 0 <= i < |s| && p(s[i])
      ensures i in Positions(s, p)
    {
      PositionOf(s, p, i);
    }
  }

  /** `Filter(s, p)` keeps order and repeats: its `k`-th element is the element at the
      `k`-th position of `Positions(s, p)`, those positions increase, and every position
      of an element satisfying `p` is among them. */
  lemma FilterInOrder<T(!new)>(s: seq<T>, p: T -> bool)
    ensures var r, idx := Filter(s, p), Positions(s, p);
      && |idx| == |r|
      && (forall k :: 0 <= k < |r| ==> idx[k] < |s| && r[k] == s[idx[k]] && p(r[k]))
      && (forall k, l :: 0 <= k < l < |r| ==> idx[k] < idx[l])
      && (forall i :: 0 <= i < |s| && p(s[i]) ==> i in idx)
  {
    PositionsComplete(s, p);
  }

  /** The object built by `rows.forEach(r => { obj[key(r)] = value(r); })`: each row
      writes its key in turn, so a later row replaces an earlier one with the same key. */
  function ToMap<T, K(==), V>(rows: seq<T>, key: T -> K, value: T -> V): map<K, V>
    decreases |rows|
  {
    if rows == [] then map[]
    else
      var last := rows[|rows| - 1];
      ToMap(rows[..|rows| - 1], key, value)[key(last) := value(last)]
  }

  /** The keys of `ToMap(rows, key, value)` are exactly the keys of the rows. */
  lemma {:induction false} ToMapKeys<T, K, V>(rows: seq<T>, key: T -> K, value: T -> V, k: K)
    ensures k in ToMap(rows, key, value) <==> exists i :: 0 <= i < |rows| && key(rows[i]) == k
    decreases |rows|
  {
    if rows != [] {
      var n := |rows| - 1;
      ToMapKeys(rows[..n], key, value, k);
      if k in ToMap(rows[..n], key, value) {
        var i :| 0 <= i < n && key(rows[..n][i]) == k;
        assert rows[i] == rows[..n][i];
      }
      if exists i :: 0 <= i < |rows| && key(rows[i]) == k {
        var i :| 0 <= i < |rows| && key(rows[i]) == k;
        if i < n {
          assert rows[..n][i] == rows[i];
        }
      }
    }
  }

  /** The value of a key is that of the last row with the key. */
  lemma {:induction false} ToMapLast<T, K, V>(rows: seq<T>, key: T -> K, value: T -> V, i: nat)
    requires i < |rows|
    requires forall j :: i < j < |rows| ==> key(rows[j]) != key(rows[i])
    ensures key(rows[i]) in ToMap(rows, key, value)
    ensures ToMap(rows, key, value)[key(rows[i])] == value(rows[i])
    decreases |rows|
  {
    var n := |rows| - 1;
    if i < n {
      ToMapLast(rows[..n], key, value, i);
    }
  }

  /** A prefix of the suffix of `s` from `i` is the slice of `s` from `i`. */
  lemma PrefixOfSuffix<T>(s: seq<T>, i: nat, r: seq<T>)
    requires i <= |s| && |r| <= |s| - i && r == s[i..][..|r|]
    ensures r == s[i..i + |r|]
  {
  }

  /** A slice holds only elements of the whole. */
  lemma SliceMembers<T>(s: seq<T>, i: nat, j: nat)
    requires i <= j <= |s|
    ensures forall x :: x in s[i..j] ==> x in s
  {
    forall x | x in s[i..j] ensures x in s {
      var k :| 0 <= k < j - i && s[i..j][k] == x;
      assert s[i + k] == x;
    }
  }
}
