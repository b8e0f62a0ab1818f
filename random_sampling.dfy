/** Weighted random sampling without replacement over a sum tree
    (common/random_sampling.rb). The heap is 1-indexed: node `i` holds item
    `i - 1`, its children are `2 i` and `2 i + 1`, and slot 0 is the unused
    sentinel that Ruby fills with `nil`. Every node records its own weight
    `w` and the total weight `tw` of its subtree. The random draws of
    `Rand.rand` are parameters. */
module RandomSampling {
  import opened Outcomes
  import opened Sequences

  // ---------------------------------------------------------------------
  // Paths in the implicit tree

  /** Node `k` lies on the path from node `i` up to the root (`i >> 1`
      being the parent of `i`). */
  predicate Ancestor(k: nat, i: nat)
    decreases i
  {
    if i <= k then i == k else Ancestor(k, i / 2)
  }

  lemma {:induction false} AncestorLe(k: nat, i: nat)
    requires Ancestor(k, i)
    ensures k <= i
    decreases i
  {
    if i > k {
      AncestorLe(k, i / 2);
    }
  }

  /** The root lies on every path. */
  lemma {:induction false} AncestorRoot(i: nat)
    requires i >= 1
    ensures Ancestor(1, i)
    decreases i
  {
    if i > 1 {
      AncestorRoot(i / 2);
    }
  }

  /** The parent of a node on the path is on the path. */
  lemma {:induction false} AncestorParent(c: nat, i: nat)
    requires c >= 2 && Ancestor(c, i)
    ensures Ancestor(c / 2, i)
    decreases i
  {
    if i > c {
      AncestorParent(c, i / 2);
    }
  }

  /** Below a node on the path other than its end, the path goes on
      through exactly one child. */
  lemma {:induction false} AncestorChild(j: nat, i: nat)
    requires j >= 1 && Ancestor(j, i) && j != i
    ensures Ancestor(2 * j, i) != Ancestor(2 * j + 1, i)
    decreases i
  {
    AncestorLe(j, i);
    if i / 2 != j {
      AncestorLe(j, i / 2);
      AncestorChild(j, i / 2);
    }
  }

  /** No node of the path lies strictly between a node of it and its
      parent. */
  lemma {:induction false} AncestorGap(k: nat, j: nat, i: nat)
    requires j >= 1 && Ancestor(j, i) && j / 2 < k < j
    ensures !Ancestor(k, i)
    decreases i
  {
    if i > j {
      AncestorLe(j, i);
      AncestorGap(k, j, i / 2);
    }
  }

  /** A draw scales a positive total into `[0, total)`. */
  lemma ScaledBelow(total: real, u: real, gas: real)
    requires total > 0.0 && 0.0 <= u < 1.0 && gas == total * u
    ensures 0.0 <= gas < total
  {
    assert total - gas == total * (1.0 - u);
  }

  /** 1 for true, 0 for false. */
  function Ind(b: bool): real {
    if b then 1.0 else 0.0
  }

  /** Zeroing the weight of node `i` and taking it off `tw` along the path
      to the root keeps every node's balance: node `k` loses the weight
      exactly once, as itself or through the one child on the path. */
  lemma PathSplit(k: nat, i: nat, n: nat)
    requires 1 <= k <= n && 1 <= i <= n
    ensures Ind(Ancestor(k, i))
      == Ind(k == i) + Ind(2 * k <= n && Ancestor(2 * k, i)) + Ind(2 * k + 1 <= n && Ancestor(2 * k + 1, i))
  {
    if Ancestor(2 * k, i) {
      AncestorLe(2 * k, i);
      AncestorParent(2 * k, i);
    }
    if Ancestor(2 * k + 1, i) {
      AncestorLe(2 * k + 1, i);
      AncestorParent(2 * k + 1, i);
    }
    if Ancestor(k, i) && k != i {
      AncestorChild(k, i);
    }
  }

  // ---------------------------------------------------------------------
  // Counting the items that can still be drawn

  /** The number of positive weights. */
  function Positives(ws: seq<real>): nat
    ensures Positives(ws) <= |ws|
  {
    if ws == [] then 0 else Positives(ws[..|ws| - 1]) + (if ws[|ws| - 1] > 0.0 then 1 else 0)
  }

  /** Zeroing one positive weight removes one item from the count. */
  lemma {:induction false} PositivesZeroed(ws: seq<real>, k: nat)
    requires k < |ws| && ws[k] > 0.0
    ensures Positives(ws[k := 0.0]) == Positives(ws) - 1
    decreases |ws|
  {
    var n := |ws| - 1;
    if k < n {
      assert ws[k := 0.0][..n] == ws[..n][k := 0.0];
      PositivesZeroed(ws[..n], k);
    } else {
      assert ws[k := 0.0][..n] == ws[..n];
    }
  }

  /** Without positive weights every non-negative weight is zero. */
  lemma {:induction false} PositivesNone(ws: seq<real>)
    requires forall k :: 0 <= k < |ws| ==> ws[k] >= 0.0
    ensures Positives(ws) == 0 <==> forall k :: 0 <= k < |ws| ==> ws[k] == 0.0
    decreases |ws|
  {
    if ws != [] {
      var n := |ws| - 1;
      PositivesNone(ws[..n]);
      assert forall k :: 0 <= k < n ==> ws[..n][k] == ws[k];
    }
  }

  function Weights<V>(items: seq<(real, V)>): (r: seq<real>)
    ensures |r| == |items| && forall k :: 0 <= k < |items| ==> r[k] == items[k].0
  {
    seq(|items|, k requires 0 <= k < |items| => items[k].0)
  }

  // ---------------------------------------------------------------------
  // Building the totals

  /** While `rws_heap` adds totals into parents from the last node down,
      the total of child `c` has reached its parent once `c` is `i` or
      past it. */
  function Added(t: seq<real>, c: nat, i: nat): real {
    if i <= c < |t| then t[c] else 0.0
  }

  /** Node `j`'s total is its weight plus the totals of its children from
      `i` on. */
  ghost predicate NodeSummed(t: seq<real>, ws: seq<real>, i: nat, j: nat)
    requires |t| == |ws| && j < |t|
  {
    t[j] == ws[j] + Added(t, 2 * j, i) + Added(t, 2 * j + 1, i)
  }

  ghost predicate SummedFrom(t: seq<real>, ws: seq<real>, i: nat)
    requires |t| == |ws|
  {
    forall j :: 1 <= j < |t| ==> NodeSummed(t, ws, i, j)
  }

  /** Adding the total of node `i` into its parent extends the summing to
      `i`. */
  lemma SumStep(t: seq<real>, t': seq<real>, ws: seq<real>, i: nat)
    requires |t| == |ws| && 2 <= i < |t| && SummedFrom(t, ws, i + 1)
    requires t' == t[i / 2 := t[i / 2] + t[i]]
    ensures SummedFrom(t', ws, i)
  {
    var p := i / 2;
    assert i == 2 * p || i == 2 * p + 1;
    forall j | 1 <= j < |t|
      ensures NodeSummed(t', ws, i, j)
    {
      assert NodeSummed(t, ws, i + 1, j);
      if j != p {
        assert Added(t', 2 * j, i) == Added(t, 2 * j, i + 1);
        assert Added(t', 2 * j + 1, i) == Added(t, 2 * j + 1, i + 1);
      }
    }
  }

  // ---------------------------------------------------------------------
  // The heap

  /** The array of `Node(w, v, tw)` structs `rws_heap` returns, stored as
      one array per field. */
  class RwsHeap<V> {
    var w: array<real>
    var tw: array<real>
    var v: seq<V>

    /** `tw` of node `c`, 0 for a child beyond the last node. */
    function Kid(c: nat): real
      reads this, tw
    {
      if 1 <= c < tw.Length then tw[c] else 0.0
    }

    /** Node `j`'s total is its weight plus its children's totals. */
    ghost predicate Balanced(j: nat)
      reads this, w, tw
      requires j < w.Length == tw.Length
    {
      tw[j] == w[j] + Kid(2 * j) + Kid(2 * j + 1)
    }

    /** The sum-tree invariant: weights are non-negative and every node is
        balanced. */
    ghost predicate Valid()
      reads this, w, tw
    {
      && w != tw
      && w.Length == tw.Length == |v| + 1
      && (forall j :: 1 <= j < w.Length ==> w[j] >= 0.0)
      && (forall j :: 1 <= j < w.Length ==> Balanced(j))
    }

    /** `rws_heap(items)`: one node per `(w, v)` pair, each total starting
        at the node's weight, then every node from the last down to 2
        adds its total into its parent's. */
    constructor (items: seq<(real, V)>)
      requires forall k :: 0 <= k < |items| ==> items[k].0 >= 0.0
      ensures Valid() && fresh(w) && fresh(tw)
      ensures |v| == |items|
      ensures forall k :: 0 <= k < |items| ==> v[k] == items[k].1 && w[k + 1] == items[k].0
    {
      var n := |items|;
      v := seq(n, k requires 0 <= k < n => items[k].1);
      w := new real[n + 1];
      tw := new real[n + 1];
      new;
      w[0], tw[0] := 0.0, 0.0;
      var k := 0;
      while k < n
        invariant k <= n
        invariant w.Length == tw.Length == n + 1 && w != tw && fresh(w) && fresh(tw)
        invariant v == seq(n, k requires 0 <= k < n => items[k].1)
        invariant forall j :: 1 <= j <= k ==> w[j] == tw[j] == items[j - 1].0
      {
        w[k + 1], tw[k + 1] := items[k].0, items[k].0;
        k := k + 1;
      }
      SumTotals();
    }

    /** The second pass of `rws_heap`: from the last node down to node 2,
        each node adds its total into its parent's, which leaves every
        node balanced. */
    method SumTotals()
      requires w != tw && w.Length == tw.Length == |v| + 1
      requires forall j :: 1 <= j <= |v| ==> tw[j] == w[j]
      modifies tw
      ensures forall j :: 1 <= j <= |v| ==> Balanced(j)
    {
      var n := |v|;
      ghost var start := n + 1;
      forall j | 1 <= j <= n
        ensures NodeSummed(tw[..], w[..], start, j)
      {
      }
      var i: nat := n;
      while i >= 2
        invariant i <= n
        invariant SummedFrom(tw[..], w[..], i + 1)
      {
        ghost var before := tw[..];
        tw[i / 2] := tw[i / 2] + tw[i];
        SumStep(before, tw[..], w[..], i);
        i := i - 1;
      }
      forall j | 1 <= j <= n
        ensures Balanced(j)
      {
        assert NodeSummed(tw[..], w[..], i + 1, j);
      }
    }

    /** A total is at least the node's own weight, and never negative. */
    lemma {:induction false} TotalCoversWeight(j: nat)
      requires Valid() && 1 <= j <= |v|
      ensures tw[j] >= w[j] >= 0.0
      decreases |v| - j
    {
      assert Balanced(j);
      if 2 * j <= |v| {
        TotalCoversWeight(2 * j);
      }
      if 2 * j + 1 <= |v| {
        TotalCoversWeight(2 * j + 1);
      }
    }

    /** A zero total at the root leaves every weight and total zero. */
    lemma {:induction false} ZeroBelowZeroRoot(j: nat)
      requires Valid() && 1 <= j <= |v| && tw[1] == 0.0
      ensures tw[j] == 0.0 && w[j] == 0.0
      decreases j
    {
      assert Balanced(j);
      if j > 1 {
        var p := j / 2;
        assert Balanced(p);
        ZeroBelowZeroRoot(p);
        if 2 * p <= |v| {
          TotalCoversWeight(2 * p);
        }
        if 2 * p + 1 <= |v| {
          TotalCoversWeight(2 * p + 1);
        }
      }
      TotalCoversWeight(j);
      if 2 * j <= |v| {
        TotalCoversWeight(2 * j);
      }
      if 2 * j + 1 <= |v| {
        TotalCoversWeight(2 * j + 1);
      }
    }

    /** With every weight zero every total is zero. */
    lemma {:induction false} ZeroTotalsOfZeroWeights(j: nat)
      requires Valid() && 1 <= j <= |v|
      requires forall k :: 1 <= k <= |v| ==> w[k] == 0.0
      ensures tw[j] == 0.0
      decreases |v| - j
    {
      assert Balanced(j);
      if 2 * j <= |v| {
        ZeroTotalsOfZeroWeights(2 * j);
      }
      if 2 * j + 1 <= |v| {
        ZeroTotalsOfZeroWeights(2 * j + 1);
      }
    }

    /** The root total is positive exactly when some weight is. */
    lemma RootPositive()
      requires Valid() && |v| > 0
      ensures tw[1] > 0.0 <==> Positives(w[1..]) > 0
    {
      TotalCoversWeight(1);
      assert forall k :: 0 <= k < |v| ==> w[1..][k] == w[k + 1];
      PositivesNone(w[1..]);
      if tw[1] == 0.0 {
        forall k | 1 <= k <= |v|
          ensures w[k] == 0.0
        {
          ZeroBelowZeroRoot(k);
        }
      }
      if Positives(w[1..]) == 0 {
        ZeroTotalsOfZeroWeights(1);
      }
    }

    /** The weight of the nodes that come before node `i` in pre-order (a
        node, then its left subtree, then its right subtree). Going down to
        a child passes the parent's own weight, and going down to a right
        child also passes the whole left subtree, whose weight is the left
        child's total in a balanced tree. */
    ghost function PreBefore(i: nat): real
      reads this, w, tw
      requires 1 <= i < w.Length == tw.Length
      decreases i
    {
      if i == 1 then 0.0
      else if i % 2 == 0 then PreBefore(i / 2) + w[i / 2]
      else PreBefore(i / 2) + w[i / 2] + tw[i - 1]
    }

    /** Going down to the left child passes the node's weight; going down
        to the right child passes the left subtree as well. */
    lemma PreBeforeChildren(i: nat)
      requires 1 <= i && w.Length == tw.Length
      ensures 2 * i < w.Length ==> PreBefore(2 * i) == PreBefore(i) + w[i]
      ensures 2 * i + 1 < w.Length ==> PreBefore(2 * i + 1) == PreBefore(i) + w[i] + tw[2 * i]
    {
      assert (2 * i) / 2 == i && (2 * i + 1) / 2 == i && (2 * i + 1) % 2 == 1;
    }

    /** What one step of the descent keeps: passing node `i` leaves the gas
        left equal to the target less the pre-order weight before the child
        entered, and gas below the total of `i` stays below the total of
        that child, which then exists. */
    lemma DescendStep(i: nat, gas: real, target: real)
      requires Valid() && 1 <= i <= |v| && gas == target - PreBefore(i) && w[i] <= gas
      ensures 2 * i <= |v| ==> tw[2 * i] >= 0.0 && gas - w[i] == target - PreBefore(2 * i)
      ensures 2 * i + 1 <= |v| ==> gas - w[i] - tw[2 * i] == target - PreBefore(2 * i + 1)
      ensures gas < tw[i] ==> 2 * i <= |v|
      ensures gas < tw[i] && gas - w[i] >= tw[2 * i] ==>
        2 * i + 1 <= |v| && gas - w[i] - tw[2 * i] < tw[2 * i + 1]
    {
      assert Balanced(i);
      PreBeforeChildren(i);
      if 2 * i <= |v| {
        TotalCoversWeight(2 * i);
      }
    }

    /** The descent of `rws_heap_pop(h)` with `Rand.rand` drawing `u`: it
        starts at the root with `gas = h[1].tw * u`, stops at the first
        node whose weight exceeds the gas left, and otherwise goes to the
        left child or, when the gas left covers the left subtree's total,
        to the right one. Throughout, the gas left is below the total of
        the node reached, so the descent never runs past the last node
        while the root total is positive, and the gas spent is the weight
        of the nodes passed in pre-order: the node reached is the one whose
        stretch `[PreBefore(i), PreBefore(i) + w[i])` of the pre-order
        weights holds `h[1].tw * u`. An empty heap (`h[1]` is nil) or a zero
        root total (the descent runs past the last node) raises
        NoMethodError, shown here as `None`. */
    method Descend(u: real) returns (found: Option<nat>)
      requires Valid() && 0.0 <= u < 1.0
      ensures found.None? <==> |v| == 0 || tw[1] == 0.0
      ensures found.Some? ==> 1 <= found.value <= |v| && w[found.value] > 0.0
      ensures found.Some? ==>
        PreBefore(found.value) <= tw[1] * u < PreBefore(found.value) + w[found.value]
    {
      if |v| == 0 {
        return None;
      }
      var gas := tw[1] * u;
      if tw[1] != 0.0 {
        TotalCoversWeight(1);
        ScaledBelow(tw[1], u, gas);
      }
      found := Walk(gas);
    }

    /** The loop of the descent, from the root with `gas` to spend: the
        node it stops at is the one whose pre-order stretch holds `gas`;
        with a zero root total it runs past the last node. */
    method Walk(gas: real) returns (found: Option<nat>)
      requires Valid() && |v| > 0 && 0.0 <= gas
      requires tw[1] == 0.0 ==> gas == 0.0
      requires tw[1] != 0.0 ==> gas < tw[1]
      ensures found.None? <==> tw[1] == 0.0
      ensures found.Some? ==> 1 <= found.value <= |v| && w[found.value] > 0.0
      ensures found.Some? ==> PreBefore(found.value) <= gas < PreBefore(found.value) + w[found.value]
    {
      var n := |v|;
      ghost var empty := tw[1] == 0.0;
      if empty {
        forall k | 1 <= k <= n
          ensures w[k] == 0.0 && tw[k] == 0.0
        {
          ZeroBelowZeroRoot(k);
        }
      }
      var left := gas;
      var i: nat := 1;
      while left >= w[i]
        invariant 1 <= i <= n
        invariant left == gas - PreBefore(i)
        invariant 0.0 <= left
        invariant !empty ==> left < tw[i]
        invariant empty ==> left == 0.0 && forall k :: 1 <= k <= n ==> w[k] == 0.0 && tw[k] == 0.0
        decreases n - i
      {
        DescendStep(i, left, gas);
        left := left - w[i];
        i := 2 * i;
        if i > n {
          return None;
        }
        if left >= tw[i] {
          left := left - tw[i];
          i := i + 1;
          if i > n {
            return None;
          }
        }
      }
      return Some(i);
    }

    /** The update half of `rws_heap_pop(h)`: node `i`'s weight is zeroed
        and taken off every total on the path from `i` to the root. */
    method TakeOut(i: nat)
      requires Valid() && 1 <= i <= |v|
      modifies w, tw
      ensures Valid()
      ensures w[1..] == old(w[1..])[i - 1 := 0.0]
      ensures forall k :: 1 <= k <= |v| ==>
        tw[k] == old(tw[k]) - (if Ancestor(k, i) then old(w[i]) else 0.0)
      ensures tw[1] == old(tw[1]) - old(w[i])
    {
      var n := |v|;
      var weight := w[i];
      w[i] := 0.0;
      var j: nat := i;
      while j > 0
        invariant j <= i
        invariant j == 0 || Ancestor(j, i)
        invariant forall k :: 1 <= k <= n ==> w[k] == if k == i then 0.0 else old(w[k])
        invariant forall k :: 1 <= k <= n ==>
          tw[k] == old(tw[k]) - (if Ancestor(k, i) && k > j then weight else 0.0)
      {
        tw[j] := tw[j] - weight;
        forall k | 1 <= k <= n && j / 2 < k < j
          ensures !Ancestor(k, i)
        {
          AncestorGap(k, j, i);
        }
        if j >= 2 {
          AncestorParent(j, i);
        }
        j := j / 2;
      }
      forall k | 1 <= k <= n
        ensures Balanced(k)
      {
        assert old(Balanced(k));
        PathSplit(k, i, n);
      }
      AncestorRoot(i);
      assert w[1..] == old(w[1..])[i - 1 := 0.0];
    }

    /** `rws_heap_pop(h)` with `Rand.rand` drawing `u`: the value of the
        node the descent reaches, whose weight is then taken out of the
        tree. */
    method Pop(u: real) returns (r: Result<V, Failure>, ghost chosen: nat)
      requires Valid() && 0.0 <= u < 1.0
      modifies w, tw
      ensures Valid()
      ensures r.Err? <==> |v| == 0 || old(tw[1]) == 0.0
      ensures r.Err? ==> r.error == NoMethodError && unchanged(w, tw)
      ensures r.Ok? ==> 1 <= chosen <= |v| && r.value == v[chosen - 1] && old(w[chosen]) > 0.0
      ensures r.Ok? ==>
        old(PreBefore(chosen)) <= old(tw[1]) * u < old(PreBefore(chosen)) + old(w[chosen])
      ensures r.Ok? ==> w[1..] == old(w[1..])[chosen - 1 := 0.0]
      ensures r.Ok? ==> forall k :: 1 <= k <= |v| ==>
        tw[k] == old(tw[k]) - (if Ancestor(k, chosen) then old(w[chosen]) else 0.0)
      ensures r.Ok? ==> tw[1] == old(tw[1]) - old(w[chosen])
    {
      var found := Descend(u);
      if found.None? {
        return Err(NoMethodError), 0;
      }
      var i := found.value;
      ghost var pre, weight, target := PreBefore(i), w[i], tw[1] * u;
      assert pre <= target < pre + weight;
      r, chosen := Ok(v[i - 1]), i;
      TakeOut(i);
      assert old(PreBefore(chosen)) == pre && old(w[chosen]) == weight && old(tw[1]) * u == target;
    }
  }

  /** The weights left in the heap: zero for the items drawn, the
      original weight for the rest. */
  ghost predicate Remaining<V>(ws: seq<real>, items: seq<(real, V)>, picks: seq<nat>)
  {
    |ws| == |items| && forall t :: 0 <= t < |items| ==> ws[t] == if t in picks then 0.0 else items[t].0
  }

  /** Each value yielded is the value of a distinct item of positive
      weight. */
  ghost predicate Drawn<V>(yielded: seq<V>, picks: seq<nat>, items: seq<(real, V)>)
  {
    && |yielded| == |picks|
    && NoDuplicates(picks)
    && forall t :: 0 <= t < |picks| ==>
      picks[t] < |items| && items[picks[t]].0 > 0.0 && yielded[t] == items[picks[t]].1
  }

  /** Drawing item `c`, whose weight left is positive, takes one item off
      the count and keeps the draws distinct. */
  lemma DrawStep<V>(ws: seq<real>, items: seq<(real, V)>, picks: seq<nat>, yielded: seq<V>, c: nat)
    requires Remaining(ws, items, picks) && Drawn(yielded, picks, items)
    requires c < |ws| && ws[c] > 0.0
    ensures Remaining(ws[c := 0.0], items, picks + [c])
    ensures Drawn(yielded + [items[c].1], picks + [c], items)
    ensures Positives(ws[c := 0.0]) == Positives(ws) - 1
  {
    assert c !in picks;
    PositivesZeroed(ws, c);
  }

  /** One pop of the sampling loop: it fails only when no weight is
      left, and otherwise draws one more item. */
  method DrawNext<V>(heap: RwsHeap<V>, u: real, ghost items: seq<(real, V)>, ghost picks: seq<nat>, ghost yielded: seq<V>)
    returns (x: Result<V, Failure>, ghost chosen: nat)
    requires heap.Valid() && 0.0 <= u < 1.0
    requires heap.v == seq(|items|, t requires 0 <= t < |items| => items[t].1)
    requires Remaining(heap.w[1..], items, picks) && Drawn(yielded, picks, items)
    modifies heap.w, heap.tw
    ensures heap.Valid()
    ensures x.Err? <==> Positives(old(heap.w[1..])) == 0
    ensures x.Err? ==> x.error == NoMethodError
    ensures x.Ok? ==> && chosen < |items| && x.value == items[chosen].1
                      && Remaining(heap.w[1..], items, picks + [chosen])
                      && Drawn(yielded + [x.value], picks + [chosen], items)
                      && Positives(heap.w[1..]) == Positives(old(heap.w[1..])) - 1
  {
    if |items| > 0 {
      heap.RootPositive();
    }
    ghost var before := heap.w[1..];
    ghost var i;
    x, i := heap.Pop(u);
    chosen := if i >= 1 then i - 1 else 0;
    if x.Ok? {
      DrawStep(before, items, picks, yielded, chosen);
    }
  }

  /** `random_weighted_sample_no_replacement(items, n)`: builds the heap
      and yields `n` pops, the `k`-th with draw `draws[k]`. The values
      yielded before a pop raises are returned with the error. */
  method SampleNoReplacement<V>(items: seq<(real, V)>, n: int, draws: seq<real>)
    returns (yielded: seq<V>, r: Result<(), Failure>, ghost picks: seq<nat>)
    requires forall k :: 0 <= k < |items| ==> items[k].0 >= 0.0
    requires n <= |draws| && forall k :: 0 <= k < |draws| ==> 0.0 <= draws[k] < 1.0
    ensures r.Ok? <==> n <= Positives(Weights(items))
    ensures r.Ok? ==> |yielded| == if n < 0 then 0 else n
    ensures r.Err? ==> r.error == NoMethodError && |yielded| == Positives(Weights(items)) < n
    ensures |picks| == |yielded| && NoDuplicates(picks)
    ensures forall k :: 0 <= k < |picks| ==>
      picks[k] < |items| && items[picks[k]].0 > 0.0 && yielded[k] == items[picks[k]].1
  {
    var heap := new RwsHeap(items);
    ghost var total := Positives(Weights(items));
    assert heap.w[1..] == Weights(items);
    yielded, picks := [], [];
    var k := 0;
    while k < n
      invariant k <= n || k == 0
      invariant heap.Valid() && heap.v == seq(|items|, t requires 0 <= t < |items| => items[t].1)
      invariant fresh(heap.w) && fresh(heap.tw)
      invariant |yielded| == k && Drawn(yielded, picks, items)
      invariant Remaining(heap.w[1..], items, picks)
      invariant Positives(heap.w[1..]) == total - k
      decreases n - k
    {
      var x, chosen := DrawNext(heap, draws[k], items, picks, yielded);
      if x.Err? {
        return yielded, Err(x.error), picks;
      }
      yielded, picks := yielded + [x.value], picks + [chosen];
      k := k + 1;
    }
    r := Ok(());
  }
}
