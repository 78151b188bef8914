/**
 * The order in which `match` visits the rows: file order, except in sequence
 * mode on a table with a `placed at` column, where the table is first sorted
 * by the parsed timestamp with unparsable timestamps (NaT) last
 * (`df.sort_values('_sort_key')`).
 */
module ProcessingOrder {
  import opened Wrappers
  import opened OrderTable

  /** `a` sorts no later than `b`: timestamps ascending, missing ones last. */
  predicate KeyLe(a: Option<int>, b: Option<int>) {
    match a
    case None => b.None?
    case Some(x) => b.None? || x <= b.value
  }

  /** Row positions `order`, all valid for `keys`, ascending by their key. */
  predicate SortedByKey(keys: seq<Option<int>>, order: seq<nat>) {
    && (forall i :: 0 <= i < |order| ==> order[i] < |keys|)
    && (forall i, j :: 0 <= i < j < |order| ==> KeyLe(keys[order[i]], keys[order[j]]))
  }

  /** The positions 0, 1, ..., n - 1 in file order. */
  function Range(n: nat): (r: seq<nat>)
    ensures |r| == n && forall i :: 0 <= i < n ==> r[i] == i
  {
    seq(n, i requires 0 <= i < n => i)
  }

  /** Inserts position `x` into a sorted list of positions, after every position whose key is not greater. */
  function InsertByKey(keys: seq<Option<int>>, x: nat, sorted: seq<nat>): (r: seq<nat>)
    requires x < |keys| && SortedByKey(keys, sorted)
    ensures |r| == |sorted| + 1
    ensures multiset(r) == multiset(sorted) + multiset{x}
    ensures SortedByKey(keys, r)
    ensures r[0] == x || (sorted != [] && r[0] == sorted[0])
    ensures keys[x].None? ==> r == sorted + [x]
  {
    if sorted == [] then [x]
    else if !KeyLe(keys[sorted[0]], keys[x]) then [x] + sorted
    else
      var rest := InsertByKey(keys, x, sorted[1..]);
      assert sorted == [sorted[0]] + sorted[1..];
      ConsSorted(keys, sorted[0], rest);
      assert keys[x].None? ==> [sorted[0]] + rest == sorted + [x];
      assert multiset([sorted[0]] + rest) == multiset{sorted[0]} + multiset(rest);
      [sorted[0]] + rest
  }

  /** A sorted list stays sorted when a position whose key is not above its first one is put in front. */
  lemma ConsSorted(keys: seq<Option<int>>, y: nat, rest: seq<nat>)
    requires y < |keys| && SortedByKey(keys, rest)
    requires rest != [] ==> KeyLe(keys[y], keys[rest[0]])
    ensures SortedByKey(keys, [y] + rest)
  {
    var r := [y] + rest;
    forall i, j | 0 <= i < j < |r|
      ensures KeyLe(keys[r[i]], keys[r[j]])
    {
      if i == 0 && j > 1 {
        assert KeyLe(keys[rest[0]], keys[rest[j - 1]]);
      }
    }
  }

  /** Putting `y` in front of a split `tail` splits `[y] + tail` one place later. */
  lemma ConsSplit(y: nat, tail: seq<nat>, x: nat, q: nat)
    requires q <= |tail|
    ensures [y] + (tail[..q] + [x] + tail[q..]) == ([y] + tail)[..q + 1] + [x] + ([y] + tail)[q + 1..]
  {
    assert ([y] + tail)[..q + 1] == [y] + tail[..q];
    assert ([y] + tail)[q + 1..] == tail[q..];
  }

  /** The insertion leaves the list around `x` as it was: `x` lands at some point `p`, the end when its key is missing. */
  lemma {:induction false} InsertSplit(keys: seq<Option<int>>, x: nat, sorted: seq<nat>) returns (p: nat)
    requires x < |keys| && SortedByKey(keys, sorted)
    ensures p <= |sorted| && InsertByKey(keys, x, sorted) == sorted[..p] + [x] + sorted[p..]
    ensures keys[x].None? ==> p == |sorted|
  {
    if sorted == [] || !KeyLe(keys[sorted[0]], keys[x]) {
      p := 0;
      assert sorted[..0] == [] && sorted[0..] == sorted;
    } else {
      var tail := sorted[1..];
      assert sorted == [sorted[0]] + tail;
      var q := InsertSplit(keys, x, tail);
      ConsSplit(sorted[0], tail, x, q);
      p := q + 1;
    }
  }

  /** Every position of `order` is less than `n`. */
  predicate Below(order: seq<nat>, n: nat) {
    forall i :: 0 <= i < |order| ==> order[i] < n
  }

  /** Among the positions of `order` whose key is missing, file order is kept. */
  predicate MissingInFileOrder(keys: seq<Option<int>>, order: seq<nat>)
    requires forall i :: 0 <= i < |order| ==> order[i] < |keys|
  {
    forall i, j :: 0 <= i < j < |order| && keys[order[i]].None? && keys[order[j]].None? ==> order[i] < order[j]
  }

  /**
   * Putting a position greater than every position of the list at point `p`
   * keeps the missing-key positions in file order, provided it goes last when
   * its own key is missing.
   */
  lemma SplitKeepsMissingOrder(keys: seq<Option<int>>, x: nat, sorted: seq<nat>, p: nat)
    requires x < |keys| && Below(sorted, x)
    requires MissingInFileOrder(keys, sorted)
    requires p <= |sorted| && (keys[x].None? ==> p == |sorted|)
    ensures Below(sorted[..p] + [x] + sorted[p..], x + 1)
    ensures MissingInFileOrder(keys, sorted[..p] + [x] + sorted[p..])
  {
    var r := sorted[..p] + [x] + sorted[p..];
    forall i, j | 0 <= i < j < |r| && keys[r[i]].None? && keys[r[j]].None?
      ensures r[i] < r[j]
    {
      if i == p {
        assert false;
      } else if j == p {
        assert r[i] == sorted[i];
      } else {
        var i' := if i < p then i else i - 1;
        var j' := if j < p then j else j - 1;
        assert r[i] == sorted[i'] && r[j] == sorted[j'];
      }
    }
  }

  /** Inserting a position greater than every listed one keeps the missing-key positions in file order. */
  lemma InsertKeepsMissingOrder(keys: seq<Option<int>>, x: nat, sorted: seq<nat>)
    requires x < |keys| && SortedByKey(keys, sorted)
    requires Below(sorted, x)
    requires MissingInFileOrder(keys, sorted)
    ensures Below(InsertByKey(keys, x, sorted), x + 1)
    ensures MissingInFileOrder(keys, InsertByKey(keys, x, sorted))
  {
    var p := InsertSplit(keys, x, sorted);
    SplitKeepsMissingOrder(keys, x, sorted, p);
  }

  /** The first `k` positions, sorted by key. */
  function SortPrefix(keys: seq<Option<int>>, k: nat): (r: seq<nat>)
    requires k <= |keys|
    ensures |r| == k
    ensures multiset(r) == multiset(Range(k))
    ensures SortedByKey(keys, r)
    ensures Below(r, k)
    ensures MissingInFileOrder(keys, r)
  {
    if k == 0 then []
    else
      assert Range(k) == Range(k - 1) + [k - 1];
      var prev := SortPrefix(keys, k - 1);
      var r := InsertByKey(keys, k - 1, prev);
      InsertKeepsMissingOrder(keys, k - 1, prev);
      r
  }

  /** The `placed at` keys of the rows, in file order. */
  function PlacedAtKeys(rows: seq<Row>): (keys: seq<Option<int>>)
    ensures |keys| == |rows| && forall i :: 0 <= i < |rows| ==> keys[i] == rows[i].placedAt
  {
    seq(|rows|, i requires 0 <= i < |rows| => rows[i].placedAt)
  }

  /**
   * The processing order: positions 0..n - 1 of the table, each exactly
   * once; ascending by `placed at` (missing last) in sequence mode when the
   * column exists, file order otherwise.
   */
  function Order(t: Table, mode: Mode): (order: seq<nat>)
    ensures |order| == |t.rows|
    ensures multiset(order) == multiset(Range(|t.rows|))
    ensures forall p :: 0 <= p < |order| ==> order[p] < |t.rows|
    ensures mode == SequenceMode && t.hasPlacedAtColumn ==> SortedByKey(PlacedAtKeys(t.rows), order)
    ensures mode == SequenceMode && t.hasPlacedAtColumn ==> MissingInFileOrder(PlacedAtKeys(t.rows), order)
    ensures !(mode == SequenceMode && t.hasPlacedAtColumn) ==> order == Range(|t.rows|)
  {
    if mode == SequenceMode && t.hasPlacedAtColumn then SortPrefix(PlacedAtKeys(t.rows), |t.rows|)
    else Range(|t.rows|)
  }

  /** The rows of `xs` at the positions `order`, in that order. */
  function Pick(xs: seq<Row>, order: seq<nat>): (r: seq<Row>)
    requires forall p :: 0 <= p < |order| ==> order[p] < |xs|
    ensures |r| == |order|
  {
    seq(|order|, p requires 0 <= p < |order| => xs[order[p]])
  }

  lemma PickConcat(xs: seq<Row>, a: seq<nat>, b: seq<nat>)
    requires forall p :: 0 <= p < |a| ==> a[p] < |xs|
    requires forall p :: 0 <= p < |b| ==> b[p] < |xs|
    ensures forall p :: 0 <= p < |a + b| ==> (a + b)[p] < |xs|
    ensures Pick(xs, a + b) == Pick(xs, a) + Pick(xs, b)
  {
  }

  /** Picking by an order is picking by the order without position `j`, plus the row at `order[j]`. */
  lemma PickRemove(xs: seq<Row>, order: seq<nat>, j: nat, rest: seq<nat>)
    requires forall p :: 0 <= p < |order| ==> order[p] < |xs|
    requires j < |order| && rest == order[..j] + order[j + 1..]
    ensures forall p :: 0 <= p < |rest| ==> rest[p] < |xs|
    ensures multiset(Pick(xs, order)) == multiset(Pick(xs, rest)) + multiset{xs[order[j]]}
  {
    var left, right := order[..j], order[j + 1..];
    assert order == left + [order[j]] + right;
    PickConcat(xs, left, [order[j]]);
    PickConcat(xs, left + [order[j]], right);
    PickConcat(xs, left, right);
  }

  lemma RemoveAt(order: seq<nat>, j: nat, rest: seq<nat>)
    requires j < |order| && rest == order[..j] + order[j + 1..]
    ensures multiset(rest) == multiset(order) - multiset{order[j]}
  {
    assert order == order[..j] + [order[j]] + order[j + 1..];
  }

  /** Picking by two orders that are permutations of each other gives permutations of each other. */
  lemma {:induction false} PickPermutation(xs: seq<Row>, o1: seq<nat>, o2: seq<nat>)
    requires forall p :: 0 <= p < |o1| ==> o1[p] < |xs|
    requires forall p :: 0 <= p < |o2| ==> o2[p] < |xs|
    requires multiset(o1) == multiset(o2)
    ensures multiset(Pick(xs, o1)) == multiset(Pick(xs, o2))
    decreases |o1|
  {
    if o1 == [] {
      assert |o2| == |multiset(o2)| == 0;
    } else {
      var n := |o1|;
      var last := o1[n - 1];
      assert last in multiset(o2);
      var j :| 0 <= j < |o2| && o2[j] == last;
      var init, rest := o1[..n - 1] + o1[n..], o2[..j] + o2[j + 1..];
      RemoveAt(o1, n - 1, init);
      RemoveAt(o2, j, rest);
      PickRemove(xs, o1, n - 1, init);
      PickRemove(xs, o2, j, rest);
      PickPermutation(xs, init, rest);
    }
  }

  /** The rows in processing order: every row of the table, each exactly once. */
  function Processed(t: Table, mode: Mode): (rows: seq<Row>)
    ensures |rows| == |t.rows|
    ensures multiset(rows) == multiset(t.rows)
  {
    var order := Order(t, mode);
    PickPermutation(t.rows, order, Range(|t.rows|));
    assert Pick(t.rows, Range(|t.rows|)) == t.rows;
    Pick(t.rows, order)
  }

  /** SKU mode, and sequence mode without a `placed at` column, keep file order. */
  lemma FileOrderKept(t: Table, mode: Mode)
    requires mode == SkuMode || !t.hasPlacedAtColumn
    ensures Processed(t, mode) == t.rows
  {
  }

  /**
   * With a `placed at` column, sequence mode visits rows by ascending
   * timestamp, missing ones last, and rows whose timestamp is missing in
   * file order.
   */
  lemma SequenceOrderSorted(t: Table)
    requires t.hasPlacedAtColumn
    ensures var rows := Processed(t, SequenceMode);
            forall i, j :: 0 <= i < j < |rows| ==> KeyLe(rows[i].placedAt, rows[j].placedAt)
    ensures var order := Order(t, SequenceMode);
            forall i, j :: 0 <= i < j < |order| && t.rows[order[i]].placedAt.None? && t.rows[order[j]].placedAt.None? ==>
              order[i] < order[j]
  {
    var order := Order(t, SequenceMode);
    var keys := PlacedAtKeys(t.rows);
    assert forall i, j :: 0 <= i < j < |order| ==> KeyLe(keys[order[i]], keys[order[j]]);
    assert MissingInFileOrder(keys, order);
  }

  /** A strictly increasing list of `n` positions below `n` is 0, 1, ..., n - 1. */
  lemma {:induction false} IncreasingIsRange(order: seq<nat>, n: nat)
    requires |order| == n && Below(order, n)
    requires forall i, j :: 0 <= i < j < n ==> order[i] < order[j]
    ensures order == Range(n)
  {
    forall i | 0 <= i < n
      ensures order[i] == i
    {
      AtLeastIndex(order, i);
      AtMostIndex(order, n, i);
    }
  }

  lemma {:induction false} AtLeastIndex(order: seq<nat>, i: nat)
    requires i < |order|
    requires forall a, b :: 0 <= a < b < |order| ==> order[a] < order[b]
    ensures order[i] >= i
  {
    if i > 0 {
      AtLeastIndex(order, i - 1);
    }
  }

  lemma {:induction false} AtMostIndex(order: seq<nat>, n: nat, i: nat)
    requires i < |order| == n && Below(order, n)
    requires forall a, b :: 0 <= a < b < |order| ==> order[a] < order[b]
    ensures order[i] <= i
    decreases n - i
  {
    if i < n - 1 {
      AtMostIndex(order, n, i + 1);
    }
  }

  /**
   * When no row of the `placed at` column holds a timestamp, sequence mode
   * keeps file order: a column that fails to parse everywhere changes nothing.
   */
  lemma AllMissingKeepsFileOrder(t: Table)
    requires t.hasPlacedAtColumn
    requires forall i :: 0 <= i < |t.rows| ==> t.rows[i].placedAt.None?
    ensures Processed(t, SequenceMode) == t.rows
  {
    var order := Order(t, SequenceMode);
    SequenceOrderSorted(t);
    IncreasingIsRange(order, |t.rows|);
    assert Pick(t.rows, Range(|t.rows|)) == t.rows;
  }
}
