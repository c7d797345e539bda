/** Ordering and ranking in `fetchClassData` (app/dashboard/page.tsx:190-207): the
    stable sort by exact percentage, descending, and competition ranking ("1,1,3")
    over all students and within each class. */
module Ranking {
  import opened Seqs
  import opened Records

  // ---- competition ranks of a sequence of values ----

  /** Values that never increase from left to right. */
  ghost predicate NonIncreasing(keys: seq<real>) {
    forall i, j :: 0 <= i < j < |keys| ==> keys[i] >= keys[j]
  }

  /** The rank the walk of lines 193-198 gives position `i`: the predecessor's rank,
      unless the value is strictly below the predecessor's, when it becomes `i + 1`. */
  function RankAt(keys: seq<real>, i: nat): (r: nat)
    requires i < |keys|
    ensures 1 <= r <= i + 1
    decreases i
  {
    if i == 0 then 1
    else if keys[i] < keys[i - 1] then i + 1
    else RankAt(keys, i - 1)
  }

  /** Holds of values strictly above `v`. */
  function Above(v: real): real -> bool {
    (x: real) => x > v
  }

  /** How many of `keys` are strictly above `v`. */
  function CountAbove(keys: seq<real>, v: real): nat {
    |Filter(keys, Above(v))|
  }

  /** One step of the walk: the rank of position `i` from the rank of its predecessor. */
  lemma RankStep(keys: seq<real>, i: nat)
    requires i < |keys|
    ensures RankAt(keys, i) == if i == 0 then 1 else if keys[i] < keys[i - 1] then i + 1 else RankAt(keys, i - 1)
  {
  }

  /** Ranks never decrease along the sequence. */
  lemma {:induction false} RankMonotone(keys: seq<real>, i: nat, j: nat)
    requires i <= j < |keys|
    ensures RankAt(keys, i) <= RankAt(keys, j)
    decreases j
  {
    if i < j && !(keys[j] < keys[j - 1]) {
      RankMonotone(keys, i, j - 1);
    }
  }

  /** On values in non-increasing order, the walk computes the competition rank:
      one more than the number of values strictly above this one. */
  lemma {:induction false} RankCountsAbove(keys: seq<real>, i: nat)
    requires NonIncreasing(keys) && i < |keys|
    ensures RankAt(keys, i) == 1 + CountAbove(keys, keys[i])
    decreases i
  {
    var p := Above(keys[i]);
    if i == 0 {
      FilterNone(keys, p);
    } else if keys[i] < keys[i - 1] {
      CountAboveAtDrop(keys, i);
    } else {
      RankCountsAbove(keys, i - 1);
      assert keys[i] == keys[i - 1];
    }
  }

  /** Where a non-increasing sequence drops strictly, exactly the values before the
      drop lie above the value after it. */
  lemma CountAboveAtDrop(keys: seq<real>, i: nat)
    requires NonIncreasing(keys) && 0 < i < |keys| && keys[i] < keys[i - 1]
    ensures CountAbove(keys, keys[i]) == i
  {
    var p := Above(keys[i]);
    var before, after := keys[..i], keys[i..];
    assert keys == before + after;
    forall k | 0 <= k < |before| ensures p(before[k]) {
      assert before[k] == keys[k] >= keys[i - 1];
    }
    forall k | 0 <= k < |after| ensures !p(after[k]) {
      assert after[k] == keys[i + k] <= keys[i];
    }
    FilterAppend(before, after, p);
    FilterAll(before, p);
    FilterNone(after, p);
  }

  /** Equal values get equal ranks, wherever they stand in a non-increasing sequence. */
  lemma TiesShareRank(keys: seq<real>, i: nat, j: nat)
    requires NonIncreasing(keys) && i < |keys| && j < |keys|
    requires keys[i] == keys[j]
    ensures RankAt(keys, i) == RankAt(keys, j)
  {
    RankCountsAbove(keys, i);
    RankCountsAbove(keys, j);
  }

  /** A strictly higher value gets a strictly better (smaller) rank. */
  lemma HigherValueRanksAhead(keys: seq<real>, i: nat, j: nat)
    requires NonIncreasing(keys) && i < |keys| && j < |keys|
    requires keys[i] > keys[j]
    ensures RankAt(keys, i) < RankAt(keys, j)
  {
    var p := Above(keys[j]);
    RankCountsAbove(keys, j);
    assert i < j;
    var front, back := keys[..i + 1], keys[i + 1..];
    assert keys == front + back;
    forall k | 0 <= k < |front| ensures p(front[k]) {
      assert front[k] == keys[k] >= keys[i];
    }
    FilterAppend(front, back, p);
    FilterAll(front, p);
    assert |Filter(keys, p)| >= i + 1;
  }

  /** The ranks of the sequence [90, 90, 85, 80, 80, 80] are [1, 1, 3, 4, 4, 4]. */
  lemma RankExample()
    ensures var keys := [90.0, 90.0, 85.0, 80.0, 80.0, 80.0];
      RankAt(keys, 0) == 1 && RankAt(keys, 1) == 1 && RankAt(keys, 2) == 3
      && RankAt(keys, 3) == 4 && RankAt(keys, 4) == 4 && RankAt(keys, 5) == 4
  {
  }

  // ---- sorting standings ----

  /** The exact percentages of `s`, in order. */
  function Percentages(s: seq<Standing>): (r: seq<real>)
    ensures |r| == |s| && forall i :: 0 <= i < |s| ==> r[i] == s[i].exactPercentage
  {
    seq(|s|, i requires 0 <= i < |s| => s[i].exactPercentage)
  }

  /** Standings in non-increasing order of exact percentage. */
  ghost predicate Descending(s: seq<Standing>) {
    forall i, j :: 0 <= i < j < |s| ==> s[i].exactPercentage >= s[j].exactPercentage
  }

  /** Insert `x` into `t` after every element whose exact percentage is not below
      `x`'s: one step of a stable insertion sort, working from the back. */
  function Insert(t: seq<Standing>, x: Standing): (r: seq<Standing>)
    ensures |r| == |t| + 1
    decreases |t|
  {
    if t == [] then [x]
    else if t[|t| - 1].exactPercentage < x.exactPercentage then Insert(t[..|t| - 1], x) + [t[|t| - 1]]
    else t + [x]
  }

  /** `processed.sort((a, b) => b.exactPercentage - a.exactPercentage)`, which
      ECMAScript requires to be stable: a stable sort, descending. */
  function SortDesc(s: seq<Standing>): (r: seq<Standing>)
    ensures |r| == |s|
    decreases |s|
  {
    if s == [] then [] else Insert(SortDesc(s[..|s| - 1]), s[|s| - 1])
  }

  /** Insertion adds exactly `x`. */
  lemma {:induction false} InsertPermutes(t: seq<Standing>, x: Standing)
    ensures multiset(Insert(t, x)) == multiset(t) + multiset{x}
    decreases |t|
  {
    if t != [] && t[|t| - 1].exactPercentage < x.exactPercentage {
      var m := |t| - 1;
      InsertPermutes(t[..m], x);
      assert t == t[..m] + [t[m]];
    }
  }

  /** The sort permutes its input. */
  lemma {:induction false} SortPermutes(s: seq<Standing>)
    ensures multiset(SortDesc(s)) == multiset(s)
    decreases |s|
  {
    if s != [] {
      var m := |s| - 1;
      var front, last := s[..m], s[m];
      var sorted := SortDesc(front);
      SortPermutes(front);
      InsertPermutes(sorted, last);
      assert s == front + [last];
      calc {
        multiset(SortDesc(s));
        multiset(Insert(sorted, last));
        multiset(sorted) + multiset{last};
        multiset(front) + multiset{last};
        multiset(front + [last]);
      }
    }
  }

  /** The elements of `Insert(t, x)` are those of `t` and `x`. */
  lemma {:induction false} InsertMembers(t: seq<Standing>, x: Standing)
    ensures forall y :: y in Insert(t, x) <==> y in t || y == x
    decreases |t|
  {
    if t != [] && t[|t| - 1].exactPercentage < x.exactPercentage {
      var m := |t| - 1;
      InsertMembers(t[..m], x);
      assert t == t[..m] + [t[m]];
    }
  }

  /** Inserting into a descending sequence keeps it descending. */
  lemma {:induction false} InsertDescending(t: seq<Standing>, x: Standing)
    requires Descending(t)
    ensures Descending(Insert(t, x))
    decreases |t|
  {
    if t != [] && t[|t| - 1].exactPercentage < x.exactPercentage {
      var m := |t| - 1;
      var r0 := Insert(t[..m], x);
      InsertDescending(t[..m], x);
      InsertMembers(t[..m], x);
      forall i | 0 <= i < |r0|
        ensures r0[i].exactPercentage >= t[m].exactPercentage
      {
        assert r0[i] in r0;
        if r0[i] != x {
          var k :| 0 <= k < m && t[..m][k] == r0[i];
          assert t[k] == r0[i];
        }
      }
      assert Insert(t, x) == r0 + [t[m]];
    }
  }

  /** The sort yields a descending permutation of its input. */
  lemma {:induction false} SortDescending(s: seq<Standing>)
    ensures Descending(SortDesc(s))
    decreases |s|
  {
    if s != [] {
      var m := |s| - 1;
      SortDescending(s[..m]);
      InsertDescending(SortDesc(s[..m]), s[m]);
    }
  }

  /** Inserting an element that is not above the last one appends it. */
  lemma InsertAtEnd(t: seq<Standing>, x: Standing)
    requires t == [] || t[|t| - 1].exactPercentage >= x.exactPercentage
    ensures Insert(t, x) == t + [x]
  {
  }

  /** Where `Insert` places `x`: after a prefix ending in an element not below `x`,
      before a suffix of elements all below it. */
  lemma {:induction false} InsertPlacement(t: seq<Standing>, x: Standing, j: nat)
    requires j <= |t|
    requires j == 0 || t[j - 1].exactPercentage >= x.exactPercentage
    requires forall k :: j <= k < |t| ==> t[k].exactPercentage < x.exactPercentage
    ensures Insert(t, x) == t[..j] + [x] + t[j..]
    decreases |t|
  {
    if |t| == j {
      InsertAtEnd(t, x);
      assert t[..j] == t && t[j..] == [];
    } else {
      var m := |t| - 1;
      var front := t[..m];
      assert t[m].exactPercentage < x.exactPercentage;
      assert Insert(t, x) == Insert(front, x) + [t[m]];
      InsertPlacement(front, x, j);
      assert front[..j] == t[..j];
      assert front[j..] + [t[m]] == t[j..];
    }
  }

  /** Filtering commutes with insertion into a descending sequence. */
  lemma {:induction false} FilterInsert(t: seq<Standing>, x: Standing, p: Standing -> bool)
    requires Descending(t)
    ensures Filter(Insert(t, x), p) == if p(x) then Insert(Filter(t, p), x) else Filter(t, p)
    decreases |t|
  {
    if t == [] {
      FilterSingleton(x, p);
      assert Insert(t, x) == [x];
      assert Filter(t, p) == [];
    } else if t[|t| - 1].exactPercentage < x.exactPercentage {
      var front, last := t[..|t| - 1], t[|t| - 1];
      assert t == front + [last];
      FilterInsert(front, x, p);
      if p(x) {
        FilterInsertPassingKept(front, last, x, p);
      } else {
        FilterInsertPassingDropped(front, last, x, p);
      }
    } else {
      FilterInsertStopping(t, x, p);
    }
  }

  /** `FilterInsert` for a kept `x` that moves past the last element, given the result for the rest. */
  lemma FilterInsertPassingKept(front: seq<Standing>, last: Standing, x: Standing, p: Standing -> bool)
    requires last.exactPercentage < x.exactPercentage && p(x)
    requires Filter(Insert(front, x), p) == Insert(Filter(front, p), x)
    ensures Filter(Insert(front + [last], x), p) == Insert(Filter(front + [last], p), x)
  {
    InsertPastLast(front, last, x);
    FilterAppendOne(front, last, p);
    FilterAppendOne(Insert(front, x), last, p);
    if p(last) {
      InsertPastLast(Filter(front, p), last, x);
    }
  }

  /** `FilterInsert` for a dropped `x` that moves past the last element, given the result for the rest. */
  lemma FilterInsertPassingDropped(front: seq<Standing>, last: Standing, x: Standing, p: Standing -> bool)
    requires last.exactPercentage < x.exactPercentage && !p(x)
    requires Filter(Insert(front, x), p) == Filter(front, p)
    ensures Filter(Insert(front + [last], x), p) == Filter(front + [last], p)
  {
    InsertPastLast(front, last, x);
    FilterAppendOne(front, last, p);
    FilterAppendOne(Insert(front, x), last, p);
  }

  /** Filtering a sequence extended by one element. */
  lemma FilterAppendOne(s: seq<Standing>, y: Standing, p: Standing -> bool)
    ensures p(y) ==> Filter(s + [y], p) == Filter(s, p) + [y]
    ensures !p(y) ==> Filter(s + [y], p) == Filter(s, p)
  {
    assert (s + [y])[..|s|] == s;
  }

  /** Inserting an element above the last one carries the last one along. */
  lemma InsertPastLast(f: seq<Standing>, y: Standing, x: Standing)
    requires y.exactPercentage < x.exactPercentage
    ensures Insert(f + [y], x) == Insert(f, x) + [y]
  {
    assert (f + [y])[..|f|] == f;
  }

  /** `FilterInsert` when `x` stops behind the last element of descending `t`. */
  lemma FilterInsertStopping(t: seq<Standing>, x: Standing, p: Standing -> bool)
    requires Descending(t)
    requires t != [] && t[|t| - 1].exactPercentage >= x.exactPercentage
    ensures Filter(Insert(t, x), p) == if p(x) then Insert(Filter(t, p), x) else Filter(t, p)
  {
    assert Insert(t, x) == t + [x];
    FilterSingleton(x, p);
    FilterAppend(t, [x], p);
    var f := Filter(t, p);
    if p(x) {
      if f != [] {
        var y := f[|f| - 1];
        FilterMembers(t, p);
        assert y in t;
        var k :| 0 <= k < |t| && t[k] == y;
        assert y.exactPercentage >= t[|t| - 1].exactPercentage;
      }
      InsertAtEnd(f, x);
    }
  }


  /** A stable sort commutes with filtering: the sorted standings restricted to any
      group (a class, or the students sharing one percentage) are that group, in
      input order, sorted on its own. */
  lemma {:induction false} SortFilterCommute(s: seq<Standing>, p: Standing -> bool)
    ensures Filter(SortDesc(s), p) == SortDesc(Filter(s, p))
    decreases |s|
  {
    if s != [] {
      var m := |s| - 1;
      SortFilterCommute(s[..m], p);
      SortDescending(s[..m]);
      FilterInsert(SortDesc(s[..m]), s[m], p);
      var f := Filter(s[..m], p);
      if p(s[m]) {
        assert Filter(s, p) == f + [s[m]];
        assert (f + [s[m]])[..|f|] == f;
      } else {
        assert Filter(s, p) == f;
      }
    }
  }

  /** Sorting an already descending sequence changes nothing. */
  lemma {:induction false} SortDescOfDescending(s: seq<Standing>)
    requires Descending(s)
    ensures SortDesc(s) == s
    decreases |s|
  {
    if s != [] {
      var m := |s| - 1;
      SortDescOfDescending(s[..m]);
      InsertAtEnd(s[..m], s[m]);
      assert s[..m] + [s[m]] == s;
    }
  }

  /** Holds of standings whose exact percentage is `v`. */
  function HasPercentage(v: real): Standing -> bool {
    (st: Standing) => st.exactPercentage == v
  }

  /** The sort is stable: students with equal exact percentages keep their input order. */
  lemma SortStable(s: seq<Standing>, v: real)
    ensures Filter(SortDesc(s), HasPercentage(v)) == Filter(s, HasPercentage(v))
  {
    var f := Filter(s, HasPercentage(v));
    SortFilterCommute(s, HasPercentage(v));
    FilterMembers(s, HasPercentage(v));
    assert forall i :: 0 <= i < |f| ==> f[i].exactPercentage == v by {
      forall i | 0 <= i < |f| ensures f[i].exactPercentage == v {
        assert f[i] in f;
      }
    }
    SortDescOfDescending(f);
  }

  /** The in-place sort of line 191, as an insertion sort over the array. */
  method SortByExactPercentage(a: array<Standing>)
    modifies a
    ensures a[..] == SortDesc(old(a[..]))
  {
    ghost var s := a[..];
    var i := 0;
    while i < a.Length
      invariant 0 <= i <= a.Length
      invariant a[..i] == SortDesc(s[..i])
      invariant a[i..] == s[i..]
    {
      InsertLast(a, i);
      assert s[..i + 1][..i] == s[..i];
      assert s[i..][0] == s[i];
      assert s[i..][1..] == s[i + 1..];
      i := i + 1;
    }
    assert a[..] == a[..a.Length];
    assert s[..a.Length] == s;
  }

  /** One step of the insertion sort: shifts the elements of `a[..i]` that lie strictly
      below `a[i]` one place right and drops `a[i]` into the gap. */
  method InsertLast(a: array<Standing>, i: nat)
    requires i < a.Length
    modifies a
    ensures a[..i + 1] == Insert(old(a[..i]), old(a[i]))
    ensures a[i + 1..] == old(a[i + 1..])
  {
    ghost var t, rest := a[..i], a[i + 1..];
    var x := a[i];
    var j := i;
    assert a[..] == t[..j] + [a[j]] + t[j..] + rest;
    while j > 0 && a[j - 1].exactPercentage < x.exactPercentage
      invariant 0 <= j <= i
      invariant a[..] == t[..j] + [a[j]] + t[j..] + rest
      invariant forall k :: j <= k < i ==> t[k].exactPercentage < x.exactPercentage
    {
      ghost var before := a[..];
      ShiftRight(t, rest, a[j], j);
      assert a[j - 1] == t[j - 1];
      a[j] := a[j - 1];
      assert a[..] == before[j := t[j - 1]];
      j := j - 1;
    }
    a[j] := x;
    Placed(t, rest, a[..], x, j);
    InsertPlacement(t, x, j);
  }

  /** Copying element `j - 1` one place right moves the gap of the insertion step down. */
  lemma ShiftRight(t: seq<Standing>, rest: seq<Standing>, g: Standing, j: nat)
    requires 0 < j <= |t|
    ensures (t[..j] + [g] + t[j..] + rest)[j - 1] == t[j - 1]
    ensures (t[..j] + [g] + t[j..] + rest)[j := t[j - 1]] == t[..j - 1] + [t[j - 1]] + t[j - 1..] + rest
  {
    var u := t[..j] + [g] + t[j..] + rest;
    var v := t[..j - 1] + [t[j - 1]] + t[j - 1..] + rest;
    assert |u[j := t[j - 1]]| == |v|;
    forall k | 0 <= k < |v| ensures u[j := t[j - 1]][k] == v[k] {
      if k < j - 1 {
      } else if k == j - 1 || k == j {
      } else if k <= |t| {
        assert u[k] == t[k - 1] && v[k] == t[k - 1];
      } else {
        assert u[k] == rest[k - |t| - 1] && v[k] == rest[k - |t| - 1];
      }
    }
  }

  /** The array after the insertion step, cut at the inserted element's end. */
  lemma Placed(t: seq<Standing>, rest: seq<Standing>, u: seq<Standing>, g: Standing, j: nat)
    requires j <= |t|
    requires u == t[..j] + [g] + t[j..] + rest
    ensures u[..|t| + 1] == t[..j] + [g] + t[j..] && u[|t| + 1..] == rest
  {
  }

  // ---- global rank ----

  /** `s` with every standing given its competition rank by exact percentage. */
  function GlobalRanked(s: seq<Standing>): (r: seq<Standing>)
    ensures |r| == |s|
  {
    var keys := Percentages(s);
    seq(|s|, i requires 0 <= i < |s| => s[i].(globalRank := RankAt(keys, i)))
  }

  /** The walk of lines 193-198, writing `globalRank` in place. */
  method AssignGlobalRanks(a: array<Standing>)
    modifies a
    ensures a[..] == GlobalRanked(old(a[..]))
  {
    ghost var s := a[..];
    ghost var keys := Percentages(s);
    var gRank := 1;
    var i := 0;
    while i < a.Length
      invariant 0 <= i <= a.Length
      invariant a[..] == GlobalWalked(s, keys, i)
      invariant gRank == if i == 0 then 1 else RankAt(keys, i - 1)
    {
      GlobalWalkedAt(s, keys, i, i);
      if i > 0 {
        GlobalWalkedAt(s, keys, i, i - 1);
      }
      if i > 0 && a[i].exactPercentage < a[i - 1].exactPercentage {
        gRank := i + 1;
      }
      RankStep(keys, i);
      a[i] := a[i].(globalRank := gRank);
      i := i + 1;
    }
    forall j | 0 <= j < a.Length
      ensures a[j] == GlobalRanked(s)[j]
    {
      GlobalWalkedAt(s, keys, a.Length, j);
    }
  }

  /** The standings `s` once the walk has ranked its first `k` positions by `keys`. */
  ghost function GlobalWalked(s: seq<Standing>, keys: seq<real>, k: nat): (r: seq<Standing>)
    requires k <= |s| == |keys|
    ensures |r| == |s|
    decreases k
  {
    if k == 0 then s
    else GlobalWalked(s, keys, k - 1)[k - 1 := s[k - 1].(globalRank := RankAt(keys, k - 1))]
  }

  /** Position `i` after `k` turns of the walk: ranked exactly when the walk has passed it. */
  lemma {:induction false} GlobalWalkedAt(s: seq<Standing>, keys: seq<real>, k: nat, i: nat)
    requires k <= |s| == |keys| && i < |s|
    ensures GlobalWalked(s, keys, k)[i] == if i < k then s[i].(globalRank := RankAt(keys, i)) else s[i]
    decreases k
  {
    if k > 0 {
      GlobalWalkedAt(s, keys, k - 1, i);
    }
  }

  // ---- class rank ----

  /** What the class ranking reads of a standing. */
  datatype RankKey = RankKey(key: real, cls: string)

  function KeyOf(st: Standing): RankKey {
    RankKey(st.exactPercentage, st.className)
  }

  /** The keys and class names of `s`, in order. */
  function RankKeys(s: seq<Standing>): (r: seq<RankKey>)
    ensures |r| == |s| && forall i :: 0 <= i < |s| ==> r[i] == KeyOf(s[i])
  {
    Map(s, KeyOf)
  }

  /** The value a key ranks by. */
  function KeyValue(k: RankKey): real {
    k.key
  }

  /** The values of a sequence of keys. */
  function Values(ks: seq<RankKey>): (r: seq<real>)
    ensures |r| == |ks| && forall i :: 0 <= i < |ks| ==> r[i] == ks[i].key
  {
    Map(ks, KeyValue)
  }

  /** `s.className === cls`, on keys. */
  function InClass(cls: string): RankKey -> bool {
    (k: RankKey) => k.cls == cls
  }

  /** The class rank of position `i`: the competition rank, within the members of its
      class taken in order, of its place among those members. */
  function ClassRank(ks: seq<RankKey>, i: nat): nat
    requires i < |ks|
  {
    var p := InClass(ks[i].cls);
    PositionOf(ks, p, i);
    RankAt(Values(Filter(ks, p)), |Filter(ks[..i], p)|)
  }

  /** `s` with the standings of the classes `classes` given their class ranks; the
      others keep the class rank they had. */
  function ClassRanked(s: seq<Standing>, classes: seq<string>): (r: seq<Standing>)
    ensures |r| == |s|
  {
    var ks := RankKeys(s);
    seq(|s|, i requires 0 <= i < |s| =>
      s[i].(classRank := if s[i].className in classes then ClassRank(ks, i) else s[i].classRank))
  }

  /** The loop of lines 200-207: for each class of the subject, in turn, the class's
      students are ranked by `RankClass`. */
  method AssignClassRanks(a: array<Standing>, classes: seq<string>)
    modifies a
    ensures a[..] == ClassRanked(old(a[..]), classes)
  {
    ghost var s := a[..];
    var ci := 0;
    ClassRankedNone(s);
    while ci < |classes|
      invariant 0 <= ci <= |classes|
      invariant a[..] == ClassRanked(s, classes[..ci])
    {
      var cls := classes[ci];
      RankClass(a, cls);
      ClassRankedStep(s, classes[..ci], cls);
      assert classes[..ci + 1] == classes[..ci] + [cls];
      ci := ci + 1;
    }
    assert classes[..ci] == classes;
  }

  /** Ranking no class changes nothing. */
  lemma ClassRankedNone(s: seq<Standing>)
    ensures ClassRanked(s, []) == s
  {
  }

  /** Ranking one more class `cls` after the classes `done` is ranking `done + [cls]`. */
  lemma ClassRankedStep(s: seq<Standing>, done: seq<string>, cls: string)
    ensures ClassRanked(ClassRanked(s, done), [cls]) == ClassRanked(s, done + [cls])
  {
    var t := ClassRanked(s, done);
    assert RankKeys(t) == RankKeys(s);
    forall i | 0 <= i < |s|
      ensures ClassRanked(t, [cls])[i] == ClassRanked(s, done + [cls])[i]
    {
      assert s[i].className in done + [cls] <==> s[i].className in done || s[i].className == cls;
    }
  }

  /** One pass of lines 201-206: `clsStudents`, the students of class `cls` in their
      current order (here their positions in the array, with their exact percentages),
      ranked by `WalkClass`. */
  method RankClass(a: array<Standing>, cls: string)
    modifies a
    ensures a[..] == ClassRanked(old(a[..]), [cls])
  {
    ghost var s := a[..];
    var ks := RankKeys(a[..]);
    var members := Positions(ks, InClass(cls));
    var keys := Values(Filter(ks, InClass(cls)));
    WalkClass(a, members, keys);
    forall i | 0 <= i < a.Length
      ensures a[i] == ClassRanked(s, [cls])[i]
    {
      WalkedAll(s, cls, i);
    }
  }

  /** `clsStudents.forEach` of lines 203-206 over the positions `members`, whose exact
      percentages are `keys`: the walk of the global rank, writing `classRank`. */
  method WalkClass(a: array<Standing>, members: seq<nat>, keys: seq<real>)
    requires |members| == |keys|
    requires forall m :: 0 <= m < |members| ==> members[m] < a.Length
    modifies a
    ensures a[..] == Walked(old(a[..]), members, keys, |members|)
  {
    ghost var s := a[..];
    var cRank := 1;
    var k := 0;
    while k < |members|
      invariant 0 <= k <= |members|
      invariant cRank == if k == 0 then 1 else RankAt(keys, k - 1)
      invariant a[..] == Walked(s, members, keys, k)
    {
      if k > 0 && keys[k] < keys[k - 1] {
        cRank := k + 1;
      }
      RankStep(keys, k);
      var i := members[k];
      a[i] := a[i].(classRank := cRank);
      k := k + 1;
    }
  }

  /** The standings `s` once a walk has given the first `k` of the positions `members`
      the ranks of their places among `keys`. */
  ghost function Walked(s: seq<Standing>, members: seq<nat>, keys: seq<real>, k: nat): (r: seq<Standing>)
    requires k <= |members| == |keys|
    requires forall m :: 0 <= m < |members| ==> members[m] < |s|
    ensures |r| == |s|
    decreases k
  {
    if k == 0 then s
    else
      var prev := Walked(s, members, keys, k - 1);
      var i := members[k - 1];
      prev[i := prev[i].(classRank := RankAt(keys, k - 1))]
  }

  /** A position no turn of the first `k` has ranked keeps its standing. */
  lemma {:induction false} WalkedMiss(s: seq<Standing>, members: seq<nat>, keys: seq<real>, k: nat, i: nat)
    requires k <= |members| == |keys|
    requires forall m :: 0 <= m < |members| ==> members[m] < |s|
    requires i < |s| && forall m :: 0 <= m < k ==> members[m] != i
    ensures Walked(s, members, keys, k)[i] == s[i]
    decreases k
  {
    if k > 0 {
      WalkedMiss(s, members, keys, k - 1, i);
    }
  }

  /** The position of the `m`-th turn, once that turn is walked, carries the rank of
      place `m` among `keys`, when no other turn visits that position. */
  lemma {:induction false} WalkedHit(s: seq<Standing>, members: seq<nat>, keys: seq<real>, k: nat, m: nat)
    requires k <= |members| == |keys|
    requires forall x :: 0 <= x < |members| ==> members[x] < |s|
    requires m < k && forall x :: 0 <= x < |members| && x != m ==> members[x] != members[m]
    ensures Walked(s, members, keys, k)[members[m]] == s[members[m]].(classRank := RankAt(keys, m))
    decreases k
  {
    if k - 1 == m {
      WalkedMiss(s, members, keys, m, members[m]);
    } else {
      WalkedHit(s, members, keys, k - 1, m);
    }
  }

  /** Once every member of class `cls` is walked, exactly the class is ranked. */
  lemma WalkedAll(s: seq<Standing>, cls: string, i: nat)
    requires i < |s|
    ensures var ks := RankKeys(s);
      Walked(s, Positions(ks, InClass(cls)), Values(Filter(ks, InClass(cls))), |Filter(ks, InClass(cls))|)[i]
      == ClassRanked(s, [cls])[i]
  {
    if s[i].className == cls {
      WalkedMember(s, cls, i);
    } else {
      WalkedOther(s, cls, i);
    }
  }

  /** A member of the class gets its class rank from the walk. */
  lemma WalkedMember(s: seq<Standing>, cls: string, i: nat)
    requires i < |s| && s[i].className == cls
    ensures var ks := RankKeys(s);
      Walked(s, Positions(ks, InClass(cls)), Values(Filter(ks, InClass(cls))), |Filter(ks, InClass(cls))|)[i]
      == s[i].(classRank := ClassRank(ks, i))
  {
    var ks := RankKeys(s);
    var p := InClass(cls);
    var members, keys := Positions(ks, p), Values(Filter(ks, p));
    PositionOf(ks, p, i);
    var m := |Filter(ks[..i], p)|;
    IncreasingDistinct(members, m);
    WalkedHit(s, members, keys, |members|, m);
  }

  /** A standing of another class is left alone by the walk. */
  lemma WalkedOther(s: seq<Standing>, cls: string, i: nat)
    requires i < |s| && s[i].className != cls
    ensures var ks := RankKeys(s);
      Walked(s, Positions(ks, InClass(cls)), Values(Filter(ks, InClass(cls))), |Filter(ks, InClass(cls))|)[i]
      == s[i]
  {
    var ks := RankKeys(s);
    var p := InClass(cls);
    var members, keys := Positions(ks, p), Values(Filter(ks, p));
    forall x | 0 <= x < |members|
      ensures members[x] != i
    {
      assert p(ks[members[x]]);
    }
    WalkedMiss(s, members, keys, |members|, i);
  }

  /** In a strictly increasing sequence no other element equals the `m`-th. */
  lemma IncreasingDistinct(members: seq<nat>, m: nat)
    requires m < |members|
    requires forall k, l :: 0 <= k < l < |members| ==> members[k] < members[l]
    ensures forall x :: 0 <= x < |members| && x != m ==> members[x] != members[m]
  {
    forall x | 0 <= x < |members| && x != m
      ensures members[x] != members[m]
    {
      if x < m {
        assert members[x] < members[m];
      } else {
        assert members[m] < members[x];
      }
    }
  }

  /** `processed` with both ranks filled in, from the sorted standings `s`. */
  function Ranked(s: seq<Standing>, classes: seq<string>): (r: seq<Standing>)
    ensures |r| == |s|
  {
    ClassRanked(GlobalRanked(s), classes)
  }

  /** Ranking changes only the two rank fields: position `i` gets its competition rank
      overall and, when its class is one of `classes`, its rank in the class. */
  lemma RankedAt(s: seq<Standing>, classes: seq<string>, i: nat)
    requires i < |s|
    ensures Ranked(s, classes)[i] == s[i].(globalRank := RankAt(Percentages(s), i),
      classRank := if s[i].className in classes then ClassRank(RankKeys(s), i) else s[i].classRank)
  {
    assert RankKeys(GlobalRanked(s)) == RankKeys(s);
  }

  /** Ranking keeps the exact percentages and class names, hence the keys, in place. */
  lemma RankedKeys(s: seq<Standing>, classes: seq<string>)
    ensures Percentages(Ranked(s, classes)) == Percentages(s)
    ensures RankKeys(Ranked(s, classes)) == RankKeys(s)
  {
    forall i | 0 <= i < |s|
      ensures Ranked(s, classes)[i].exactPercentage == s[i].exactPercentage
      ensures Ranked(s, classes)[i].className == s[i].className
    {
      RankedAt(s, classes, i);
    }
  }

  /** Keys whose values never increase from left to right. */
  ghost predicate KeysNonIncreasing(ks: seq<RankKey>) {
    forall a, b :: 0 <= a < b < |ks| ==> ks[a].key >= ks[b].key
  }

  /** A filter of keys in non-increasing order is still in non-increasing order. */
  lemma {:induction false} FilterKeysNonIncreasing(ks: seq<RankKey>, p: RankKey -> bool)
    requires KeysNonIncreasing(ks)
    ensures KeysNonIncreasing(Filter(ks, p))
    decreases |ks|
  {
    if ks != [] {
      var n := |ks| - 1;
      var front := ks[..n];
      assert KeysNonIncreasing(front);
      FilterKeysNonIncreasing(front, p);
      FilterMembers(front, p);
      var f := Filter(front, p);
      forall x | x in f ensures x.key >= ks[n].key {
        var a :| 0 <= a < n && front[a] == x;
      }
    }
  }

  /** Keys of the same class as `k` with a value strictly above `k`'s. */
  function SameClassAbove(k: RankKey): RankKey -> bool {
    (x: RankKey) => x.cls == k.cls && x.key > k.key
  }

  /** Keys with a value strictly above `v`. */
  function KeyAbove(v: real): RankKey -> bool {
    (x: RankKey) => x.key > v
  }

  /** On standings sorted by exact percentage, the class rank is the competition rank
      within the class: one more than the number of students of the same class with a
      strictly higher exact percentage, wherever the other classes' students stand. */
  lemma ClassRankCountsAbove(s: seq<Standing>, i: nat)
    requires Descending(s) && i < |s|
    ensures ClassRank(RankKeys(s), i) == 1 + |Filter(RankKeys(s), SameClassAbove(KeyOf(s[i])))|
  {
    var ks := RankKeys(s);
    var p := InClass(ks[i].cls);
    var f := Filter(ks, p);
    var d := Values(f);
    var v := ks[i].key;
    PositionOf(ks, p, i);
    var m := |Filter(ks[..i], p)|;
    assert d[m] == v;
    FilterKeysNonIncreasing(ks, p);
    assert NonIncreasing(d);
    RankCountsAbove(d, m);
    FilterMap(f, KeyValue, Above(v), KeyAbove(v));
    FilterFilter(ks, p, KeyAbove(v), SameClassAbove(ks[i]));
  }

  /** On standings sorted by exact percentage, the global rank is the competition rank:
      one more than the number of students with a strictly higher exact percentage. */
  lemma GlobalRankCountsAbove(s: seq<Standing>, i: nat)
    requires Descending(s) && i < |s|
    ensures RankAt(Percentages(s), i) == 1 + CountAbove(Percentages(s), s[i].exactPercentage)
  {
    assert NonIncreasing(Percentages(s));
    RankCountsAbove(Percentages(s), i);
  }

  /** Lines 193-207: both ranking passes over the sorted array. */
  method RankStandings(a: array<Standing>, classes: seq<string>)
    modifies a
    ensures a[..] == Ranked(old(a[..]), classes)
  {
    AssignGlobalRanks(a);
    AssignClassRanks(a, classes);
  }
}
