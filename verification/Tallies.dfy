/** Label → minutes tables as association lists in first-insertion order
    (a JavaScript object used as a map), the accumulation that fills them,
    and the stable descending sort that orders them for display. Generic in
    the label type. */
module Tallies {

  /** Label → minutes, one row per label, rows in the order labels first
      appeared. */
  type Totals<K> = seq<(K, int)>

  function Keys<K>(m: Totals<K>): (r: seq<K>)
    ensures |r| == |m| && forall i :: 0 <= i < |m| ==> r[i] == m[i].0
  {
    seq(|m|, i requires 0 <= i < |m| => m[i].0)
  }

  predicate KeysDistinct<K(==)>(m: Totals<K>) {
    forall i, j :: 0 <= i < j < |m| ==> m[i].0 != m[j].0
  }

  /** `(map[label] || 0)`: the minutes filed under `key`, 0 when absent. */
  function Lookup<K(==)>(m: Totals<K>, key: K): (r: int)
    ensures (forall i :: 0 <= i < |m| ==> m[i].0 != key) ==> r == 0
    ensures (exists i :: 0 <= i < |m| && m[i].0 == key) ==>
      exists i :: FirstRowOf(m, key, i) && r == m[i].1
  {
    if m == [] then 0
    else if m[0].0 == key then
      assert FirstRowOf(m, key, 0);
      m[0].1
    else
      var tail := m[1..];
      var r := Lookup(tail, key);
      if exists i :: 0 <= i < |m| && m[i].0 == key then
        var k :| 0 <= k < |m| && m[k].0 == key;
        assert tail[k - 1].0 == key;
        var i :| FirstRowOf(tail, key, i) && r == tail[i].1;
        assert FirstRowOf(m, key, i + 1);
        r
      else r
  }

  /** Row `i` is the first row labelled `key`. */
  predicate FirstRowOf<K(==)>(m: Totals<K>, key: K, i: int) {
    0 <= i < |m| && m[i].0 == key && forall j :: 0 <= j < i ==> m[j].0 != key
  }

  /** Sum of all minutes in a table. */
  function SumValues<K>(m: Totals<K>): int {
    if m == [] then 0 else m[0].1 + SumValues(m[1..])
  }

  /** `map[key] = (map[key] || 0) + minutes`: bumps an existing row in place
      or appends a new one at the end. */
  function AddMinutes<K(==)>(m: Totals<K>, key: K, minutes: int): (r: Totals<K>)
    ensures SumValues(r) == SumValues(m) + minutes
  {
    if m == [] then [(key, minutes)]
    else if m[0].0 == key then [(key, m[0].1 + minutes)] + m[1..]
    else [m[0]] + AddMinutes(m[1..], key, minutes)
  }

  lemma KeysCons<K>(x: (K, int), m: Totals<K>)
    ensures Keys([x] + m) == [x.0] + Keys(m)
  {
  }

  /** A known label keeps its row; a new one is appended at the end. */
  lemma {:induction false} AddMinutesKeys<K>(m: Totals<K>, key: K, minutes: int)
    ensures Keys(AddMinutes(m, key, minutes)) == if key in Keys(m) then Keys(m) else Keys(m) + [key]
    decreases |m|
  {
    if m != [] {
      var tail := m[1..];
      var ks := Keys(tail);
      assert m == [m[0]] + tail;
      KeysCons(m[0], tail);
      if m[0].0 == key {
        KeysCons((key, m[0].1 + minutes), tail);
      } else {
        var rest := AddMinutes(tail, key, minutes);
        AddMinutesKeys(tail, key, minutes);
        KeysCons(m[0], rest);
        assert key in Keys(m) <==> key in ks;
        assert [m[0].0] + (ks + [key]) == ([m[0].0] + ks) + [key];
      }
    }
  }

  /** Rows keep distinct labels when minutes are added. */
  lemma AddMinutesKeepsKeysDistinct<K>(m: Totals<K>, key: K, minutes: int)
    requires KeysDistinct(m)
    ensures KeysDistinct(AddMinutes(m, key, minutes))
  {
    var r := AddMinutes(m, key, minutes);
    var ks := Keys(r);
    AddMinutesKeys(m, key, minutes);
    forall i, j | 0 <= i < j < |r|
      ensures r[i].0 != r[j].0
    {
      assert ks[i] == r[i].0 && ks[j] == r[j].0;
      if j == |m| {
        assert key !in Keys(m) && ks[i] == Keys(m)[i];
      } else {
        assert ks[i] == Keys(m)[i] && ks[j] == Keys(m)[j];
      }
    }
  }

  /** Adding to one label moves only that label's minutes. */
  lemma {:induction false} AddMinutesLookup<K>(m: Totals<K>, key: K, minutes: int, k: K)
    ensures Lookup(AddMinutes(m, key, minutes), k) == Lookup(m, k) + (if k == key then minutes else 0)
    decreases |m|
  {
    if m != [] && m[0].0 != key {
      AddMinutesLookup(m[1..], key, minutes, k);
      assert AddMinutes(m, key, minutes) == [m[0]] + AddMinutes(m[1..], key, minutes);
      assert ([m[0]] + AddMinutes(m[1..], key, minutes))[1..] == AddMinutes(m[1..], key, minutes);
    } else if m != [] && k != key {
      assert AddMinutes(m, key, minutes)[1..] == m[1..];
      assert Lookup(m[1..], k) == Lookup(m, k);
    }
  }

  // ---------------------------------------------------------------------
  // Reference definitions over the labelled entries

  /** Total of all minutes in a list of (label, minutes) pairs. */
  function PairsTotal<K>(pairs: seq<(K, int)>): int {
    if pairs == [] then 0 else PairsTotal(pairs[..|pairs| - 1]) + pairs[|pairs| - 1].1
  }

  /** Total of the minutes filed under `key`. */
  function KeyTotal<K(==)>(pairs: seq<(K, int)>, key: K): int {
    if pairs == [] then 0
    else KeyTotal(pairs[..|pairs| - 1], key) + (if pairs[|pairs| - 1].0 == key then pairs[|pairs| - 1].1 else 0)
  }

  /** The labels, each once, in order of first appearance. */
  function FirstOccurrences<K(==)>(keys: seq<K>): seq<K> {
    if keys == [] then []
    else
      var prior := FirstOccurrences(keys[..|keys| - 1]);
      if keys[|keys| - 1] in prior then prior else prior + [keys[|keys| - 1]]
  }

  /** The `forEach` accumulation over (label, minutes) pairs, in order. */
  function Accumulate<K(==)>(pairs: seq<(K, int)>): (r: Totals<K>)
    ensures KeysDistinct(r)
  {
    if pairs == [] then []
    else
      var last := pairs[|pairs| - 1];
      AddMinutesKeepsKeysDistinct(Accumulate(pairs[..|pairs| - 1]), last.0, last.1);
      AddMinutes(Accumulate(pairs[..|pairs| - 1]), last.0, last.1)
  }

  /** Accumulation conserves the minutes: the table sums to the pairs' total. */
  lemma {:induction false} AccumulateConservesSum<K>(pairs: seq<(K, int)>)
    ensures SumValues(Accumulate(pairs)) == PairsTotal(pairs)
    decreases |pairs|
  {
    if pairs != [] {
      AccumulateConservesSum(pairs[..|pairs| - 1]);
    }
  }

  /** Each label's row holds exactly the minutes of the pairs with that
      label (0, and no row, for a label that never occurs). */
  lemma {:induction false} AccumulateLookup<K>(pairs: seq<(K, int)>, key: K)
    ensures Lookup(Accumulate(pairs), key) == KeyTotal(pairs, key)
    decreases |pairs|
  {
    if pairs != [] {
      var init, last := pairs[..|pairs| - 1], pairs[|pairs| - 1];
      AccumulateLookup(init, key);
      AddMinutesLookup(Accumulate(init), last.0, last.1, key);
    }
  }

  /** The rows appear in the order their labels first occur. */
  lemma {:induction false} AccumulateKeyOrder<K>(pairs: seq<(K, int)>)
    ensures Keys(Accumulate(pairs)) == FirstOccurrences(Keys(pairs))
    decreases |pairs|
  {
    if pairs != [] {
      var init := pairs[..|pairs| - 1];
      assert Keys(pairs)[..|pairs| - 1] == Keys(init);
      AccumulateKeyOrder(init);
      AddMinutesKeys(Accumulate(init), pairs[|pairs| - 1].0, pairs[|pairs| - 1].1);
    }
  }

  // ---------------------------------------------------------------------
  // Rendered order

  predicate NonIncreasing<K>(m: Totals<K>) {
    forall i, j :: 0 <= i < j < |m| ==> m[i].1 >= m[j].1
  }

  /** The rows whose minutes equal `v`, in order. */
  function WithMinutes<K>(m: Totals<K>, v: int): Totals<K> {
    if m == [] then []
    else (if m[0].1 == v then [m[0]] else []) + WithMinutes(m[1..], v)
  }

  /** Places a row after every row with at least as many minutes. */
  function Insert<K>(m: Totals<K>, x: (K, int)): (r: Totals<K>)
    ensures |r| == |m| + 1
  {
    if m == [] then [x]
    else if m[0].1 >= x.1 then [m[0]] + Insert(m[1..], x)
    else [x] + m
  }

  /** `Insert` adds exactly the one row. */
  lemma {:induction false} InsertPermutes<K>(m: Totals<K>, x: (K, int))
    ensures multiset(Insert(m, x)) == multiset(m) + multiset{x}
    decreases |m|
  {
    if m != [] && m[0].1 >= x.1 {
      assert m == [m[0]] + m[1..];
      InsertPermutes(m[1..], x);
    }
  }

  /** Every row has at most `bound` minutes. */
  predicate AllAtMost<K>(m: Totals<K>, bound: int) {
    forall i :: 0 <= i < |m| ==> m[i].1 <= bound
  }

  /** `Insert` brings in no row above a bound the table and the row respect. */
  lemma {:induction false} InsertAtMost<K>(m: Totals<K>, x: (K, int), bound: int)
    requires AllAtMost(m, bound) && x.1 <= bound
    ensures AllAtMost(Insert(m, x), bound)
    decreases |m|
  {
    if m != [] && m[0].1 >= x.1 {
      var rest := Insert(m[1..], x);
      InsertAtMost(m[1..], x, bound);
      var r := [m[0]] + rest;
      assert forall j :: 0 < j < |r| ==> r[j] == rest[j - 1];
    } else if m != [] {
      var r := [x] + m;
      assert forall j :: 0 < j < |r| ==> r[j] == m[j - 1];
    }
  }

  /** Inserting into an ordered table keeps it ordered. */
  lemma {:induction false} InsertSorted<K>(m: Totals<K>, x: (K, int))
    requires NonIncreasing(m)
    ensures NonIncreasing(Insert(m, x))
    decreases |m|
  {
    if m != [] && m[0].1 >= x.1 {
      var tail := m[1..];
      var rest := Insert(tail, x);
      assert NonIncreasing(tail);
      InsertSorted(tail, x);
      assert AllAtMost(tail, m[0].1);
      InsertAtMost(tail, x, m[0].1);
      var r := [m[0]] + rest;
      assert forall j :: 0 < j < |r| ==> r[j] == rest[j - 1];
    } else if m != [] {
      var r := [x] + m;
      assert forall j :: 0 < j < |r| ==> r[j] == m[j - 1];
    }
  }

  /** `.sort((a, b) => b[1] - a[1])`: a stable sort by minutes, largest first
      (an insertion sort, stable as ECMAScript 2019 requires of `sort`). The
      result is a permutation of the table in non-increasing order of
      minutes. */
  function SortByMinutesDesc<K>(m: Totals<K>): (r: Totals<K>)
    ensures multiset(r) == multiset(m)
    ensures NonIncreasing(r)
  {
    if m == [] then []
    else
      var init := SortByMinutesDesc(m[..|m| - 1]);
      assert m == m[..|m| - 1] + [m[|m| - 1]];
      InsertSorted(init, m[|m| - 1]);
      InsertPermutes(init, m[|m| - 1]);
      Insert(init, m[|m| - 1])
  }

  lemma {:induction false} WithMinutesAppend<K>(a: Totals<K>, b: Totals<K>, v: int)
    ensures WithMinutes(a + b, v) == WithMinutes(a, v) + WithMinutes(b, v)
    decreases |a|
  {
    if a == [] {
      assert a + b == b;
    } else {
      assert (a + b)[0] == a[0];
      assert (a + b)[1..] == a[1..] + b;
      WithMinutesAppend(a[1..], b, v);
      var head: Totals<K> := if a[0].1 == v then [a[0]] else [];
      assert WithMinutes(a + b, v) == head + WithMinutes(a[1..] + b, v);
      assert head + (WithMinutes(a[1..], v) + WithMinutes(b, v)) == (head + WithMinutes(a[1..], v)) + WithMinutes(b, v);
    }
  }

  lemma {:induction false} WithMinutesNone<K>(m: Totals<K>, v: int)
    requires forall i :: 0 <= i < |m| ==> m[i].1 < v
    ensures WithMinutes(m, v) == []
    decreases |m|
  {
    if m != [] {
      WithMinutesNone(m[1..], v);
    }
  }

  /** A row placed in front of an ordered table whose rows all have fewer
      minutes is the only row of its minutes. */
  lemma InsertAtFront<K>(m: Totals<K>, x: (K, int), v: int)
    requires NonIncreasing(m) && m != [] && m[0].1 < x.1
    ensures WithMinutes([x] + m, v) == WithMinutes(m, v) + (if x.1 == v then [x] else [])
  {
    var r := [x] + m;
    assert r[0] == x && r[1..] == m;
    if x.1 == v {
      WithMinutesNone(m, v);
    }
  }

  /** The row passed over by `Insert` keeps its place ahead of the rest. */
  lemma {:induction false} InsertBehind<K>(m: Totals<K>, x: (K, int), v: int)
    requires NonIncreasing(m) && m != [] && m[0].1 >= x.1
    ensures WithMinutes(Insert(m, x), v) == WithMinutes(m, v) + (if x.1 == v then [x] else [])
    decreases |m|, 0
  {
    var xs: Totals<K> := if x.1 == v then [x] else [];
    var head: Totals<K> := if m[0].1 == v then [m[0]] else [];
    var tail := m[1..];
    var rest := Insert(tail, x);
    var r := [m[0]] + rest;
    assert Insert(m, x) == r;
    assert r[0] == m[0] && r[1..] == rest;
    assert NonIncreasing(tail);
    InsertStable(tail, x, v);
    assert WithMinutes(r, v) == head + (WithMinutes(tail, v) + xs);
    assert head + (WithMinutes(tail, v) + xs) == (head + WithMinutes(tail, v)) + xs;
    assert WithMinutes(m, v) == head + WithMinutes(tail, v);
  }

  lemma {:induction false} InsertStable<K>(m: Totals<K>, x: (K, int), v: int)
    requires NonIncreasing(m)
    ensures WithMinutes(Insert(m, x), v) == WithMinutes(m, v) + (if x.1 == v then [x] else [])
    decreases |m|, 1
  {
    if m == [] {
      assert Insert(m, x) == [x];
      assert [x][1..] == [];
    } else if m[0].1 >= x.1 {
      InsertBehind(m, x, v);
    } else {
      assert Insert(m, x) == [x] + m;
      InsertAtFront(m, x, v);
    }
  }

  /** The sort is stable: rows with equal minutes keep their relative order
      (together with the ordering this fixes the rendered sequence). */
  lemma {:induction false} SortStable<K>(m: Totals<K>, v: int)
    ensures WithMinutes(SortByMinutesDesc(m), v) == WithMinutes(m, v)
    decreases |m|
  {
    if m != [] {
      var init, x := m[..|m| - 1], m[|m| - 1];
      assert m == init + [x];
      WithMinutesAppend(init, [x], v);
      var sorted := SortByMinutesDesc(init);
      assert SortByMinutesDesc(m) == Insert(sorted, x);
      SortStable(init, v);
      InsertStable(sorted, x, v);
      assert [x][1..] == [];
      assert WithMinutes([x], v) == (if x.1 == v then [x] else []);
    }
  }
}
