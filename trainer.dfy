/** The training helpers of common/trainer.rb: merging the gradients of
    shared or transposed-tied parameters (`remove_duplicates`) and the
    truncated-BPTT mini-batch reader of `RnnlmTrainer` (`get_batch`). */
module Trainer {
  import opened Outcomes
  import opened Sequences
  import Functions
  import Arithmetic

  // ---------------------------------------------------------------------
  // Parameter and gradient arrays

  /** A Numo array of numbers: rank 2 as a matrix of rows, every other
      rank as its shape and its row-major cells. */
  datatype Tensor =
    | Matrix(rows: nat, cols: nat, cells: seq<seq<int>>)
    | Dense(shape: seq<nat>, data: seq<int>)

  ghost predicate WellFormed(t: Tensor) {
    match t
    case Matrix(rows, cols, cells) =>
      |cells| == rows && forall r :: 0 <= r < rows ==> |cells[r]| == cols
    case Dense(shape, data) =>
      |shape| != 2 && |data| == Functions.Prod(shape)
  }

  /** Numo's `shape`; its length is `ndim`. */
  function Shape(t: Tensor): (r: seq<nat>)
    ensures WellFormed(t) ==> (|r| == 2 <==> t.Matrix?)
  {
    match t
    case Matrix(rows, cols, _) => [rows, cols]
    case Dense(shape, _) => shape
  }

  /** Numo's `transpose` of a rank-2 array. */
  function Transpose(t: Tensor): (r: Tensor)
    requires t.Matrix? && WellFormed(t)
    ensures r.Matrix? && WellFormed(r)
    ensures Shape(r) == [t.cols, t.rows]
    ensures forall c, k :: 0 <= c < t.cols && 0 <= k < t.rows ==> r.cells[c][k] == t.cells[k][c]
  {
    Matrix(t.cols, t.rows,
      seq(t.cols, (c: int) requires 0 <= c < t.cols =>
        seq(t.rows, (k: int) requires 0 <= k < t.rows => t.cells[k][c])))
  }

  /** Numo's element-wise `+` of two arrays of one shape. */
  function Add(x: Tensor, y: Tensor): (r: Tensor)
    requires WellFormed(x) && WellFormed(y) && Shape(x) == Shape(y)
    ensures WellFormed(r) && Shape(r) == Shape(x) && r.Matrix? == x.Matrix?
    ensures r.Matrix? ==> forall k, c :: 0 <= k < x.rows && 0 <= c < x.cols ==>
      r.cells[k][c] == x.cells[k][c] + y.cells[k][c]
    ensures r.Dense? ==> forall k :: 0 <= k < |x.data| ==> r.data[k] == x.data[k] + y.data[k]
  {
    match x
    case Matrix(rows, cols, cells) =>
      Matrix(rows, cols,
        seq(rows, (k: int) requires 0 <= k < rows =>
          seq(cols, (c: int) requires 0 <= c < cols => cells[k][c] + y.cells[k][c])))
    case Dense(shape, data) =>
      Dense(shape, seq(|data|, (k: int) requires 0 <= k < |data| => data[k] + y.data[k]))
  }

  lemma TransposeTwice(t: Tensor)
    requires t.Matrix? && WellFormed(t)
    ensures Transpose(Transpose(t)) == t
  {
    var tt := Transpose(Transpose(t));
    forall k | 0 <= k < t.rows
      ensures tt.cells[k] == t.cells[k]
    {
    }
  }

  lemma TransposeAdd(x: Tensor, y: Tensor)
    requires x.Matrix? && WellFormed(x) && WellFormed(y) && Shape(x) == Shape(y)
    ensures Transpose(Add(x, y)) == Add(Transpose(x), Transpose(y))
  {
    var lhs, rhs := Transpose(Add(x, y)), Add(Transpose(x), Transpose(y));
    forall c | 0 <= c < x.cols
      ensures lhs.cells[c] == rhs.cells[c]
    {
    }
  }

  lemma AddAssoc(x: Tensor, y: Tensor, z: Tensor)
    requires WellFormed(x) && WellFormed(y) && WellFormed(z)
    requires Shape(x) == Shape(y) == Shape(z)
    ensures Add(Add(x, y), z) == Add(x, Add(y, z))
  {
    var lhs, rhs := Add(Add(x, y), z), Add(x, Add(y, z));
    if x.Matrix? {
      forall k | 0 <= k < x.rows
        ensures lhs.cells[k] == rhs.cells[k]
      {
      }
    } else {
      assert lhs.data == rhs.data;
    }
  }

  /** A trainable parameter: `id` is the Ruby `object_id` of its array. */
  datatype Param = Param(id: nat, value: Tensor)

  /** What the callers of `remove_duplicates` hand it: one gradient per
      parameter, of the parameter's shape, and one value per object. */
  ghost predicate Consistent(ps: seq<Param>, gs: seq<Tensor>) {
    && |ps| == |gs|
    && (forall k :: 0 <= k < |ps| ==>
          WellFormed(ps[k].value) && WellFormed(gs[k]) && Shape(gs[k]) == Shape(ps[k].value))
    && (forall k, l :: 0 <= k < |ps| && 0 <= l < |ps| && ps[k].id == ps[l].id ==>
          ps[k].value == ps[l].value)
  }

  /** `p` and `q` are one object, or two rank-2 arrays of which `q` is `p`
      transposed: the two tests of the inner loop. */
  predicate Tied(p: Param, q: Param) {
    p.id == q.id
    || (p.value.Matrix? && q.value.Matrix?
        && WellFormedMatrix(p.value) && Transpose(p.value) == q.value)
  }

  /** Slots `i` and `j` are to be merged. Parameters are never changed, so
      this depends on the two parameters only, not on where they sit. */
  predicate IsDup(ps: seq<Param>, i: nat, j: nat)
    requires i < |ps| && j < |ps|
  {
    Tied(ps[i], ps[j])
  }

  /** The rank-2 well-formedness `Transpose` needs, computable. */
  predicate WellFormedMatrix(t: Tensor)
    requires t.Matrix?
    ensures WellFormedMatrix(t) <==> WellFormed(t)
  {
    |t.cells| == t.rows && forall r :: 0 <= r < t.rows ==> |t.cells[r]| == t.cols
  }

  /** `(a, b)` comes no earlier than `(i, j)` in the scan order of the two
      nested loops. */
  predicate NotBefore(a: nat, b: nat, i: nat, j: nat) {
    a > i || (a == i && b >= j)
  }

  /** The nested scan of one pass, resumed at `(i, j)`: the first pair
      `(a, b)`, `a < b`, it meets that is to be merged. */
  function FindDupFrom(ps: seq<Param>, i: nat, j: nat): Option<(nat, nat)>
    requires i < j
    decreases |ps| - i, |ps| - j
  {
    if i >= |ps| then None
    else if j >= |ps| then FindDupFrom(ps, i + 1, i + 2)
    else if IsDup(ps, i, j) then Some((i, j))
    else FindDupFrom(ps, i, j + 1)
  }

  /** The scan finds nothing exactly when no pair from `(i, j)` on is to be
      merged, and otherwise the first such pair in its order. */
  lemma {:induction false} FindDupFromFirst(ps: seq<Param>, i: nat, j: nat)
    requires i < j
    ensures var r := FindDupFrom(ps, i, j);
      && (r.None? <==> forall a: nat, b: nat :: a < b < |ps| && NotBefore(a, b, i, j) ==> !IsDup(ps, a, b))
      && (r.Some? ==>
            && r.value.0 < r.value.1 < |ps|
            && NotBefore(r.value.0, r.value.1, i, j)
            && IsDup(ps, r.value.0, r.value.1)
            && forall a: nat, b: nat :: a < b < |ps| && NotBefore(a, b, i, j) && !NotBefore(a, b, r.value.0, r.value.1) ==>
                 !IsDup(ps, a, b))
    decreases |ps| - i, |ps| - j
  {
    if i >= |ps| {
    } else if j >= |ps| {
      FindDupFromFirst(ps, i + 1, i + 2);
    } else if !IsDup(ps, i, j) {
      FindDupFromFirst(ps, i, j + 1);
    }
  }

  /** `FindDup(ps)` is the first pair of a pass. */
  function FindDup(ps: seq<Param>): (r: Option<(nat, nat)>)
    ensures r.Some? ==> r.value.0 < r.value.1 < |ps| && IsDup(ps, r.value.0, r.value.1)
  {
    FindDupFromFirst(ps, 0, 1);
    FindDupFrom(ps, 0, 1)
  }

  /** A pass that finds nothing means no pair is left to merge. */
  lemma FindDupNone(ps: seq<Param>)
    requires FindDup(ps).None?
    ensures NoDup(ps)
  {
    FindDupFromFirst(ps, 0, 1);
    forall a: nat, b: nat | a < b < |ps|
      ensures !IsDup(ps, a, b)
    {
      assert NotBefore(a, b, 0, 1);
    }
  }

  /** No slot pair left to merge. */
  ghost predicate NoDup(ps: seq<Param>) {
    forall a: nat, b: nat :: a < b < |ps| ==> !IsDup(ps, a, b)
  }

  function DeleteAt<T>(s: seq<T>, j: nat): (r: seq<T>)
    requires j < |s|
    ensures |r| == |s| - 1
    ensures forall k :: 0 <= k < |r| ==> r[k] == if k < j then s[k] else s[k + 1]
  {
    s[..j] + s[j + 1..]
  }

  /** What slot `s` adds to slot `t` when it is folded into it: its
      gradient, transposed when the two parameters are tied by
      transposition rather than by identity (trainer.rb lines 20 and 27). */
  function Contribution(ps: seq<Param>, gs: seq<Tensor>, t: nat, s: nat): (g: Tensor)
    requires Consistent(ps, gs) && t < |ps| && s < |ps| && IsDup(ps, t, s)
    ensures WellFormed(g) && Shape(g) == Shape(gs[t])
  {
    if ps[t].id == ps[s].id then gs[s] else Transpose(gs[s])
  }

  /** The gradient that slot `i` receives when slot `j` is folded into it. */
  function Folded(ps: seq<Param>, gs: seq<Tensor>, i: nat, j: nat): (g: Tensor)
    requires Consistent(ps, gs) && i < j < |ps| && IsDup(ps, i, j)
    ensures WellFormed(g) && Shape(g) == Shape(gs[i])
  {
    Add(gs[i], Contribution(ps, gs, i, j))
  }

  /** One merge: slot `j` folded into slot `i` and deleted from both lists. */
  function Merge(ps: seq<Param>, gs: seq<Tensor>, i: nat, j: nat): (r: (seq<Param>, seq<Tensor>))
    requires Consistent(ps, gs) && i < j < |ps| && IsDup(ps, i, j)
    ensures Consistent(r.0, r.1) && |r.0| == |ps| - 1
  {
    (DeleteAt(ps, j), DeleteAt(gs[i := Folded(ps, gs, i, j)], j))
  }

  /** One merge changes slot `i` to `gs[i]` plus slot `j`'s contribution,
      deletes slot `j`, and moves every later slot down by one; no other
      gradient changes. */
  lemma MergeSlots(ps: seq<Param>, gs: seq<Tensor>, i: nat, j: nat, k: nat)
    requires Consistent(ps, gs) && i < j < |ps| && IsDup(ps, i, j)
    requires k < |ps| - 1
    ensures var m := Merge(ps, gs, i, j);
      && m.0[k] == (if k < j then ps[k] else ps[k + 1])
      && m.1[k] == (if k == i then Add(gs[i], Contribution(ps, gs, i, j))
                    else if k < j then gs[k] else gs[k + 1])
  {
  }

  /** The merges repeated until no duplicate is left: what
      `remove_duplicates` returns. */
  function Dedup(ps: seq<Param>, gs: seq<Tensor>): (r: (seq<Param>, seq<Tensor>))
    requires Consistent(ps, gs)
    ensures |r.0| == |r.1| && |r.0| <= |ps|
    decreases |ps|
  {
    match FindDup(ps)
    case None => (ps, gs)
    case Some((i, j)) =>
      var m := Merge(ps, gs, i, j);
      Dedup(m.0, m.1)
  }

  /** The lists `remove_duplicates` returns are still aligned, hold no two
      slots that would be merged, and are the input with some slots
      deleted and the survivors in their original order; only later slots
      are deleted, so a non-empty input leaves a non-empty result. */
  lemma {:induction false} DedupResult(ps: seq<Param>, gs: seq<Tensor>)
    requires Consistent(ps, gs)
    ensures var r := Dedup(ps, gs);
      && Consistent(r.0, r.1)
      && NoDup(r.0)
      && Subseq(r.0, ps)
      && |r.0| <= |ps| && (|ps| > 0 ==> |r.0| > 0)
    decreases |ps|
  {
    match FindDup(ps)
    case None =>
      FindDupNone(ps);
      SubseqRefl(ps);
    case Some((i, j)) =>
      var m := Merge(ps, gs, i, j);
      DedupResult(m.0, m.1);
      DeleteAtSubseq(ps, j);
      SubseqTrans(Dedup(m.0, m.1).0, m.0, ps);
      SubseqLength(Dedup(m.0, m.1).0, ps);
  }

  // ---------------------------------------------------------------------
  // Conservation of gradient mass

  /** The sum of a row of numbers. */
  function RowTotal(s: seq<int>): int {
    if s == [] then 0 else RowTotal(s[..|s| - 1]) + s[|s| - 1]
  }

  /** The sum of all cells of a matrix given by its rows. */
  function CellsTotal(cells: seq<seq<int>>): int {
    if cells == [] then 0 else CellsTotal(cells[..|cells| - 1]) + RowTotal(cells[|cells| - 1])
  }

  /** The sum of all entries of an array. */
  function Total(t: Tensor): int {
    match t
    case Matrix(_, _, cells) => CellsTotal(cells)
    case Dense(_, data) => RowTotal(data)
  }

  /** The sum of all entries of all gradients. */
  function GradTotal(gs: seq<Tensor>): int {
    if gs == [] then 0 else Total(gs[0]) + GradTotal(gs[1..])
  }

  lemma {:induction false} RowTotalAdd(a: seq<int>, b: seq<int>, c: seq<int>)
    requires |a| == |b| == |c|
    requires forall k :: 0 <= k < |c| ==> c[k] == a[k] + b[k]
    ensures RowTotal(c) == RowTotal(a) + RowTotal(b)
    decreases |c|
  {
    if c != [] {
      var n := |c| - 1;
      RowTotalAdd(a[..n], b[..n], c[..n]);
    }
  }

  lemma {:induction false} CellsTotalAdd(a: seq<seq<int>>, b: seq<seq<int>>, c: seq<seq<int>>)
    requires |a| == |b| == |c|
    requires forall k :: 0 <= k < |c| ==> |a[k]| == |b[k]| == |c[k]|
    requires forall k, l :: 0 <= k < |c| && 0 <= l < |c[k]| ==> c[k][l] == a[k][l] + b[k][l]
    ensures CellsTotal(c) == CellsTotal(a) + CellsTotal(b)
    decreases |c|
  {
    if c != [] {
      var n := |c| - 1;
      CellsTotalAdd(a[..n], b[..n], c[..n]);
      RowTotalAdd(a[n], b[n], c[n]);
    }
  }

  /** Adding two arrays adds their totals. */
  lemma TotalAdd(x: Tensor, y: Tensor)
    requires WellFormed(x) && WellFormed(y) && Shape(x) == Shape(y)
    ensures Total(Add(x, y)) == Total(x) + Total(y)
  {
    var r := Add(x, y);
    if x.Matrix? {
      CellsTotalAdd(x.cells, y.cells, r.cells);
    } else {
      RowTotalAdd(x.data, y.data, r.data);
    }
  }

  /** Rows of zero length add up to 0. */
  lemma {:induction false} CellsTotalEmptyRows(cells: seq<seq<int>>)
    requires forall k :: 0 <= k < |cells| ==> cells[k] == []
    ensures CellsTotal(cells) == 0
    decreases |cells|
  {
    if cells != [] {
      CellsTotalEmptyRows(cells[..|cells| - 1]);
    }
  }

  /** Appending one column `v` to a matrix adds the total of `v`. */
  lemma {:induction false} CellsTotalColumn(a: seq<seq<int>>, b: seq<seq<int>>, v: seq<int>)
    requires |a| == |b| == |v|
    requires forall k :: 0 <= k < |b| ==> b[k] == a[k] + [v[k]]
    ensures CellsTotal(b) == CellsTotal(a) + RowTotal(v)
    decreases |b|
  {
    if b != [] {
      var n := |b| - 1;
      CellsTotalColumn(a[..n], b[..n], v[..n]);
      assert b[n][..|b[n]| - 1] == a[n];
    }
  }

  /** Transposing keeps the total. */
  lemma {:induction false} TotalTranspose(t: Tensor)
    requires t.Matrix? && WellFormed(t)
    ensures Total(Transpose(t)) == Total(t)
    decreases t.rows
  {
    var tt := Transpose(t);
    if t.rows == 0 {
      CellsTotalEmptyRows(tt.cells);
    } else {
      var n := t.rows - 1;
      var shorter := Matrix(n, t.cols, t.cells[..n]);
      TotalTranspose(shorter);
      var ts := Transpose(shorter);
      forall c | 0 <= c < t.cols
        ensures tt.cells[c] == ts.cells[c] + [t.cells[n][c]]
      {
      }
      CellsTotalColumn(ts.cells, tt.cells, t.cells[n]);
    }
  }

  lemma {:induction false} GradTotalDelete(gs: seq<Tensor>, j: nat)
    requires j < |gs|
    ensures GradTotal(DeleteAt(gs, j)) == GradTotal(gs) - Total(gs[j])
    decreases j
  {
    if j == 0 {
      assert DeleteAt(gs, 0) == gs[1..];
    } else {
      GradTotalDelete(gs[1..], j - 1);
      assert DeleteAt(gs, j)[1..] == DeleteAt(gs[1..], j - 1);
    }
  }

  lemma {:induction false} GradTotalUpdate(gs: seq<Tensor>, i: nat, x: Tensor)
    requires i < |gs|
    ensures GradTotal(gs[i := x]) == GradTotal(gs) - Total(gs[i]) + Total(x)
    decreases i
  {
    if i == 0 {
      assert gs[i := x][1..] == gs[1..];
    } else {
      GradTotalUpdate(gs[1..], i - 1, x);
      assert gs[i := x][1..] == gs[1..][i - 1 := x];
    }
  }

  /** One merge moves gradient mass from slot `j` to slot `i` and loses
      none. */
  lemma MergeConservesTotal(ps: seq<Param>, gs: seq<Tensor>, i: nat, j: nat)
    requires Consistent(ps, gs) && i < j < |ps| && IsDup(ps, i, j)
    ensures GradTotal(Merge(ps, gs, i, j).1) == GradTotal(gs)
  {
    var g := Folded(ps, gs, i, j);
    if ps[i].id == ps[j].id {
      TotalAdd(gs[i], gs[j]);
    } else {
      TotalTranspose(gs[j]);
      TotalAdd(gs[i], Transpose(gs[j]));
    }
    GradTotalUpdate(gs, i, g);
    GradTotalDelete(gs[i := g], j);
  }

  /** `remove_duplicates` neither loses nor invents gradient: the entries
      of the returned gradients add up to those of the given ones. */
  lemma {:induction false} DedupConservesTotal(ps: seq<Param>, gs: seq<Tensor>)
    requires Consistent(ps, gs)
    ensures GradTotal(Dedup(ps, gs).1) == GradTotal(gs)
    decreases |ps|
  {
    match FindDup(ps)
    case None =>
    case Some((i, j)) =>
      var m := Merge(ps, gs, i, j);
      MergeConservesTotal(ps, gs, i, j);
      DedupConservesTotal(m.0, m.1);
  }

  // ---------------------------------------------------------------------
  // Which gradient each surviving slot receives

  /** Slot `t`'s own gradient with the contributions of the slots `ss`
      added one after the other. */
  function FoldAll(ps: seq<Param>, gs: seq<Tensor>, t: nat, ss: seq<nat>): (g: Tensor)
    requires Consistent(ps, gs) && t < |ps|
    requires forall s :: s in ss ==> s < |ps| && IsDup(ps, t, s)
    ensures WellFormed(g) && Shape(g) == Shape(gs[t])
    decreases |ss|
  {
    if ss == [] then gs[t]
    else
      var n := |ss| - 1;
      assert forall s :: s in ss[..n] ==> s in ss;
      assert ss[n] in ss;
      Add(FoldAll(ps, gs, t, ss[..n]), Contribution(ps, gs, t, ss[n]))
  }

  /** The bookkeeping of `Dedup` on the parameter list alone: for every
      slot still present, the original slot it is (`orig`) and the
      original slots folded into it so far, in the order of the merges
      (`folded`). */
  ghost function Track(ps: seq<Param>, orig: seq<nat>, folded: seq<seq<nat>>): (r: (seq<nat>, seq<seq<nat>>))
    requires |orig| == |ps| == |folded|
    decreases |ps|
  {
    match FindDup(ps)
    case None => (orig, folded)
    case Some((i, j)) =>
      Track(DeleteAt(ps, j), DeleteAt(orig, j), DeleteAt(folded[i := folded[i] + [orig[j]]], j))
  }

  /** `Track` from the start: every slot is itself and has received
      nothing. */
  ghost function Origins(ps: seq<Param>): (seq<nat>, seq<seq<nat>>) {
    Track(ps, seq(|ps|, k => k), seq(|ps|, k => []))
  }

  /** All the original slots folded into survivors. */
  ghost function FoldedSlots(folded: seq<seq<nat>>): multiset<nat> {
    if folded == [] then multiset{} else FoldedSlots(folded[..|folded| - 1]) + multiset(folded[|folded| - 1])
  }

  /** The lists `ps`, `gs` arose from the original lists `P`, `G`: slot `k`
      is original slot `orig[k]` (in the original order), and its gradient
      is that slot's own gradient plus the contributions of the later
      original slots `folded[k]`, each tied to it; every original slot is
      a survivor or folded into one, exactly once. */
  ghost predicate Tracks(P: seq<Param>, G: seq<Tensor>, ps: seq<Param>, gs: seq<Tensor>,
                         orig: seq<nat>, folded: seq<seq<nat>>)
  {
    && Consistent(P, G)
    && |gs| == |ps| && |orig| == |ps| && |folded| == |ps|
    && (forall k :: 0 <= k < |ps| ==> SlotTracked(P, G, ps[k], gs[k], orig[k], folded[k]))
    && (forall k, l :: 0 <= k < l < |ps| ==> orig[k] < orig[l])
    && multiset(orig) + FoldedSlots(folded) == multiset(Range(|P|))
  }

  /** One slot of `Tracks`: parameter `p` with gradient `g` is original
      slot `o` with the later slots `f` folded into it. */
  ghost predicate SlotTracked(P: seq<Param>, G: seq<Tensor>, p: Param, g: Tensor, o: nat, f: seq<nat>) {
    && Consistent(P, G)
    && o < |P| && p == P[o]
    && (forall s :: s in f ==> o < s < |P| && IsDup(P, o, s))
    && g == FoldAll(P, G, o, f)
  }

  /** A slot that has received a fold has no earlier slot tied to it. */
  ghost predicate Unmerged(ps: seq<Param>, folded: seq<seq<nat>>)
    requires |folded| == |ps|
  {
    forall a, k :: 0 <= a < k < |ps| && folded[k] != [] ==> !IsDup(ps, a, k)
  }

  lemma {:induction false} FoldedSlotsAppend(folded: seq<seq<nat>>, i: nat, x: nat)
    requires i < |folded|
    ensures FoldedSlots(folded[i := folded[i] + [x]]) == FoldedSlots(folded) + multiset{x}
    decreases |folded|
  {
    var n := |folded| - 1;
    var b := folded[i] + [x];
    if i < n {
      assert folded[i := b][..n] == folded[..n][i := folded[..n][i] + [x]];
      FoldedSlotsAppend(folded[..n], i, x);
    } else {
      assert folded[i := b][..n] == folded[..n];
      assert multiset(b) == multiset(folded[i]) + multiset{x};
    }
  }

  lemma {:induction false} FoldedSlotsDelete(folded: seq<seq<nat>>, j: nat)
    requires j < |folded| && folded[j] == []
    ensures FoldedSlots(DeleteAt(folded, j)) == FoldedSlots(folded)
    decreases |folded|
  {
    var n := |folded| - 1;
    if j < n {
      assert DeleteAt(folded, j)[..n - 1] == DeleteAt(folded[..n], j);
      assert DeleteAt(folded, j)[n - 1] == folded[n];
      FoldedSlotsDelete(folded[..n], j);
    } else {
      assert DeleteAt(folded, j) == folded[..n];
    }
  }

  /** The first pair `(i, j)` of a pass has no earlier slot tied to `i`. */
  lemma FindDupFirstAt(ps: seq<Param>, i: nat, j: nat, a: nat)
    requires FindDup(ps) == Some((i, j)) && a < i
    ensures !IsDup(ps, a, i)
  {
    FindDupFromFirst(ps, 0, 1);
    assert NotBefore(a, i, 0, 1) && !NotBefore(a, i, i, j);
  }

  /** The merged slot `i` receives original slot `orig[j]`, which itself
      has received nothing. */
  lemma TrackFold(P: seq<Param>, G: seq<Tensor>, ps: seq<Param>, gs: seq<Tensor>,
                  orig: seq<nat>, folded: seq<seq<nat>>, i: nat, j: nat)
    requires Consistent(ps, gs) && Tracks(P, G, ps, gs, orig, folded) && Unmerged(ps, folded)
    requires i < j < |ps| && IsDup(ps, i, j)
    ensures folded[j] == []
    ensures SlotTracked(P, G, ps[i], Folded(ps, gs, i, j), orig[i], folded[i] + [orig[j]])
  {
    var ss := folded[i] + [orig[j]];
    assert ss[..|ss| - 1] == folded[i];
    assert SlotTracked(P, G, ps[i], gs[i], orig[i], folded[i]);
    assert SlotTracked(P, G, ps[j], gs[j], orig[j], folded[j]);
  }

  /** One merge keeps the per-slot part of the bookkeeping right, given
      that the merged slot `i` is tracked and so is the slot that moves to
      position `k`. */
  lemma TrackSlot(P: seq<Param>, G: seq<Tensor>, ps: seq<Param>, gs: seq<Tensor>,
                  orig: seq<nat>, folded: seq<seq<nat>>, i: nat, j: nat, k: nat)
    requires Consistent(ps, gs) && i < j < |ps| && IsDup(ps, i, j) && k < |ps| - 1
    requires |orig| == |ps| && |folded| == |ps|
    requires SlotTracked(P, G, ps[i], Folded(ps, gs, i, j), orig[i], folded[i] + [orig[j]])
    requires k != i ==> var o := if k < j then k else k + 1;
      SlotTracked(P, G, ps[o], gs[o], orig[o], folded[o])
    ensures var m := Merge(ps, gs, i, j);
      var orig', folded' := DeleteAt(orig, j), DeleteAt(folded[i := folded[i] + [orig[j]]], j);
      SlotTracked(P, G, m.0[k], m.1[k], orig'[k], folded'[k])
  {
    var m := Merge(ps, gs, i, j);
    var orig', folded' := DeleteAt(orig, j), DeleteAt(folded[i := folded[i] + [orig[j]]], j);
    MergeSlots(ps, gs, i, j, k);
    var o := if k < j then k else k + 1;
    assert m.0[k] == ps[o] && orig'[k] == orig[o];
    if k == i {
      assert m.1[k] == Folded(ps, gs, i, j) && folded'[k] == folded[i] + [orig[j]];
    } else {
      assert m.1[k] == gs[o] && folded'[k] == folded[o];
    }
  }

  /** After one merge, a slot that has received a fold still has no
      earlier slot tied to it. */
  lemma TrackUnmerged(ps: seq<Param>, folded: seq<seq<nat>>, orig: seq<nat>, i: nat, j: nat)
    requires |folded| == |ps| == |orig| && Unmerged(ps, folded)
    requires FindDup(ps) == Some((i, j))
    ensures var folded' := DeleteAt(folded[i := folded[i] + [orig[j]]], j);
      Unmerged(DeleteAt(ps, j), folded')
  {
    var ps', folded' := DeleteAt(ps, j), DeleteAt(folded[i := folded[i] + [orig[j]]], j);
    forall a, k | 0 <= a < k < |ps'| && folded'[k] != []
      ensures !IsDup(ps', a, k)
    {
      var ka := if k < j then k else k + 1;
      var aa := if a < j then a else a + 1;
      assert ps'[a] == ps[aa] && ps'[k] == ps[ka];
      if ka == i {
        FindDupFirstAt(ps, i, j, aa);
      } else {
        assert folded[ka] != [];
        assert !IsDup(ps, aa, ka);
      }
    }
  }

  /** After one merge every original slot is still counted exactly once:
      `orig[j]` moves from the survivors to the slots folded into `i`. */
  lemma TrackCount(orig: seq<nat>, folded: seq<seq<nat>>, i: nat, j: nat)
    requires |orig| == |folded| && i < j < |orig| && folded[j] == []
    ensures var folded' := DeleteAt(folded[i := folded[i] + [orig[j]]], j);
      multiset(DeleteAt(orig, j)) + FoldedSlots(folded') == multiset(orig) + FoldedSlots(folded)
  {
    var x, b := orig[j], folded[i] + [orig[j]];
    assert orig == orig[..j] + [x] + orig[j + 1..];
    assert multiset(DeleteAt(orig, j)) + multiset{x} == multiset(orig);
    FoldedSlotsAppend(folded, i, x);
    FoldedSlotsDelete(folded[i := b], j);
  }

  /** One merge keeps the bookkeeping right. */
  lemma TrackStep(P: seq<Param>, G: seq<Tensor>, ps: seq<Param>, gs: seq<Tensor>,
                  orig: seq<nat>, folded: seq<seq<nat>>, i: nat, j: nat)
    requires Consistent(ps, gs) && Tracks(P, G, ps, gs, orig, folded) && Unmerged(ps, folded)
    requires FindDup(ps) == Some((i, j))
    ensures var m := Merge(ps, gs, i, j);
      var folded' := DeleteAt(folded[i := folded[i] + [orig[j]]], j);
      Tracks(P, G, m.0, m.1, DeleteAt(orig, j), folded') && Unmerged(m.0, folded')
  {
    var m := Merge(ps, gs, i, j);
    var orig', folded' := DeleteAt(orig, j), DeleteAt(folded[i := folded[i] + [orig[j]]], j);
    TrackFold(P, G, ps, gs, orig, folded, i, j);
    forall k | 0 <= k < |m.0|
      ensures SlotTracked(P, G, m.0[k], m.1[k], orig'[k], folded'[k])
    {
      if k != i {
        var o := if k < j then k else k + 1;
        assert SlotTracked(P, G, ps[o], gs[o], orig[o], folded[o]);
      }
      TrackSlot(P, G, ps, gs, orig, folded, i, j, k);
    }
    DeleteAtIncreasing(orig, j);
    TrackUnmerged(ps, folded, orig, i, j);
    TrackCount(orig, folded, i, j);
  }

  lemma DeleteAtIncreasing(s: seq<nat>, j: nat)
    requires j < |s| && forall k, l :: 0 <= k < l < |s| ==> s[k] < s[l]
    ensures var r := DeleteAt(s, j); forall k, l :: 0 <= k < l < |r| ==> r[k] < r[l]
  {
    var r := DeleteAt(s, j);
    forall k, l | 0 <= k < l < |r|
      ensures r[k] < r[l]
    {
      var ko, lo := if k < j then k else k + 1, if l < j then l else l + 1;
      assert r[k] == s[ko] && r[l] == s[lo];
    }
  }

  lemma {:induction false} DedupTracks(P: seq<Param>, G: seq<Tensor>, ps: seq<Param>, gs: seq<Tensor>,
                                       orig: seq<nat>, folded: seq<seq<nat>>)
    requires Consistent(ps, gs) && Tracks(P, G, ps, gs, orig, folded) && Unmerged(ps, folded)
    ensures var r, t := Dedup(ps, gs), Track(ps, orig, folded);
      Tracks(P, G, r.0, r.1, t.0, t.1)
    decreases |ps|
  {
    match FindDup(ps)
    case None =>
    case Some((i, j)) =>
      var m := Merge(ps, gs, i, j);
      TrackStep(P, G, ps, gs, orig, folded, i, j);
      DedupTracks(P, G, m.0, m.1, DeleteAt(orig, j), DeleteAt(folded[i := folded[i] + [orig[j]]], j));
  }

  /** The headline promise of `remove_duplicates`: surviving slot `k` is
      original slot `orig[k]`, and its gradient is that slot's own gradient
      plus, for every later original slot `s` folded into it, `gs[s]` when
      the two parameters are one object and `gs[s]` transposed when they
      are tied by transposition. Every original slot survives or is folded
      into exactly one survivor. */
  lemma DedupSlots(ps: seq<Param>, gs: seq<Tensor>)
    requires Consistent(ps, gs)
    ensures var (qs, hs) := Dedup(ps, gs);
      var (orig, folded) := Origins(ps);
      && |hs| == |qs| && |orig| == |qs| && |folded| == |qs|
      && (forall k :: 0 <= k < |qs| ==> orig[k] < |ps| && qs[k] == ps[orig[k]])
      && (forall k, s :: 0 <= k < |qs| && s in folded[k] ==> orig[k] < s < |ps| && IsDup(ps, orig[k], s))
      && (forall k :: 0 <= k < |qs| ==> hs[k] == FoldAll(ps, gs, orig[k], folded[k]))
      && multiset(orig) + FoldedSlots(folded) == multiset(Range(|ps|))
  {
    TracksStart(ps, gs);
    var (orig, folded) := (seq(|ps|, k => k), seq(|ps|, k => []));
    DedupTracks(ps, gs, ps, gs, orig, folded);
    var (qs, hs) := Dedup(ps, gs);
    var (orig', folded') := Origins(ps);
    forall k | 0 <= k < |qs|
      ensures orig'[k] < |ps| && qs[k] == ps[orig'[k]]
      ensures forall s :: s in folded'[k] ==> orig'[k] < s < |ps| && IsDup(ps, orig'[k], s)
      ensures hs[k] == FoldAll(ps, gs, orig'[k], folded'[k])
    {
      assert SlotTracked(ps, gs, qs[k], hs[k], orig'[k], folded'[k]);
    }
  }

  /** A model whose parameter list is `[A, B, A, Bᵗ]`: the third slot is
      the object of the first again, the fourth a different object holding
      the second transposed (`A` is a vector here, `B` a 1 x 2 matrix).
      `remove_duplicates` keeps `[A, B]`, the gradient of `A` summed over
      slots 1 and 3, and that of `B` plus the transposed gradient of slot 4. */
  lemma DedupTiedExample(ps: seq<Param>, gs: seq<Tensor>)
    requires ps == [Param(1, Dense([2], [1, 2])), Param(2, Matrix(1, 2, [[3, 4]])),
                    Param(1, Dense([2], [1, 2])), Param(3, Matrix(2, 1, [[3], [4]]))]
    requires Consistent(ps, gs)
    ensures Dedup(ps, gs) == ([ps[0], ps[1]], [Add(gs[0], gs[2]), Add(gs[1], Transpose(gs[3]))])
  {
    TiedFirstPass(ps, gs);
    var m1 := Merge(ps, gs, 0, 2);
    TiedSecondPass(m1.0, m1.1);
    var m2 := Merge(m1.0, m1.1, 1, 2);
    TiedLastPass(m2.0);
    assert Dedup(ps, gs) == Dedup(m1.0, m1.1) == Dedup(m2.0, m2.1) == m2;
  }

  /** The first pass over `[A, B, A, Bᵗ]` folds slot 3 into slot 1. */
  lemma TiedFirstPass(ps: seq<Param>, gs: seq<Tensor>)
    requires ps == [Param(1, Dense([2], [1, 2])), Param(2, Matrix(1, 2, [[3, 4]])),
                    Param(1, Dense([2], [1, 2])), Param(3, Matrix(2, 1, [[3], [4]]))]
    requires Consistent(ps, gs)
    ensures FindDup(ps) == Some((0, 2))
    ensures Merge(ps, gs, 0, 2) == ([ps[0], ps[1], ps[3]], [Add(gs[0], gs[2]), gs[1], gs[3]])
  {
    assert !IsDup(ps, 0, 1) && IsDup(ps, 0, 2);
    assert FindDupFrom(ps, 0, 1) == FindDupFrom(ps, 0, 2) == Some((0, 2));
    var m := Merge(ps, gs, 0, 2);
    MergeSlots(ps, gs, 0, 2, 0);
    MergeSlots(ps, gs, 0, 2, 1);
    MergeSlots(ps, gs, 0, 2, 2);
    assert m.0 == [ps[0], ps[1], ps[3]];
    assert m.1 == [Add(gs[0], gs[2]), gs[1], gs[3]];
  }

  /** The second pass over `[A, B, Bᵗ]` folds slot 3, transposed, into
      slot 2. */
  lemma TiedSecondPass(ps: seq<Param>, gs: seq<Tensor>)
    requires ps == [Param(1, Dense([2], [1, 2])), Param(2, Matrix(1, 2, [[3, 4]])),
                    Param(3, Matrix(2, 1, [[3], [4]]))]
    requires Consistent(ps, gs)
    ensures FindDup(ps) == Some((1, 2))
    ensures Merge(ps, gs, 1, 2) == ([ps[0], ps[1]], [gs[0], Add(gs[1], Transpose(gs[2]))])
  {
    var bt := Transpose(ps[1].value);
    assert bt.cells[0] == [3] && bt.cells[1] == [4];
    assert bt == ps[2].value;
    assert !IsDup(ps, 0, 1) && !IsDup(ps, 0, 2) && IsDup(ps, 1, 2);
    assert FindDupFrom(ps, 0, 1) == FindDupFrom(ps, 0, 2) == FindDupFrom(ps, 0, 3);
    assert FindDupFrom(ps, 0, 3) == FindDupFrom(ps, 1, 2) == Some((1, 2));
    var m := Merge(ps, gs, 1, 2);
    MergeSlots(ps, gs, 1, 2, 0);
    MergeSlots(ps, gs, 1, 2, 1);
    assert m.0 == [ps[0], ps[1]];
    assert m.1 == [gs[0], Add(gs[1], Transpose(gs[2]))];
  }

  /** Nothing is left to merge in `[A, B]`. */
  lemma TiedLastPass(ps: seq<Param>)
    requires ps == [Param(1, Dense([2], [1, 2])), Param(2, Matrix(1, 2, [[3, 4]]))]
    ensures FindDup(ps) == None
  {
    assert !IsDup(ps, 0, 1);
    assert FindDupFrom(ps, 0, 1) == FindDupFrom(ps, 0, 2) == FindDupFrom(ps, 1, 2);
    assert FindDupFrom(ps, 1, 2) == FindDupFrom(ps, 2, 3) == None;
  }

  /** Before the first merge every slot is itself and has received
      nothing. */
  lemma TracksStart(ps: seq<Param>, gs: seq<Tensor>)
    requires Consistent(ps, gs)
    ensures var (orig, folded) := (seq(|ps|, k => k), seq(|ps|, k => []));
      Tracks(ps, gs, ps, gs, orig, folded) && Unmerged(ps, folded)
  {
    var (orig, folded) := (seq(|ps|, k => k), seq(|ps|, k => []));
    assert orig == Range(|ps|);
    FoldedSlotsNone(folded);
    forall k | 0 <= k < |ps|
      ensures SlotTracked(ps, gs, ps[k], gs[k], orig[k], folded[k])
    {
    }
  }

  lemma {:induction false} FoldedSlotsNone(folded: seq<seq<nat>>)
    requires forall k :: 0 <= k < |folded| ==> folded[k] == []
    ensures FoldedSlots(folded) == multiset{}
    decreases |folded|
  {
    if folded != [] {
      FoldedSlotsNone(folded[..|folded| - 1]);
    }
  }

  /** `remove_duplicates`: the lists are cloned, so the caller's arrays are
      left as they are, and the clones are merged pass by pass until a
      pass finds nothing. */
  method RemoveDuplicates(params: array<Param>, grads: array<Tensor>) returns (ps: seq<Param>, gs: seq<Tensor>)
    requires Consistent(params[..], grads[..])
    ensures (ps, gs) == Dedup(params[..], grads[..])
  {
    ps, gs := params[..], grads[..];
    while true
      invariant Consistent(ps, gs)
      invariant Dedup(ps, gs) == Dedup(params[..], grads[..])
      decreases |ps|
    {
      var found;
      found, ps, gs := MergePass(ps, gs);
      if !found {
        break;
      }
    }
  }

  /** One pass of the outer `loop do`: the two nested loops look for the
      first pair to merge, in their scan order, and merge it. */
  method MergePass(ps: seq<Param>, gs: seq<Tensor>) returns (found: bool, ps': seq<Param>, gs': seq<Tensor>)
    requires Consistent(ps, gs)
    ensures found <==> FindDup(ps).Some?
    ensures found ==> (ps', gs') == Merge(ps, gs, FindDup(ps).value.0, FindDup(ps).value.1)
    ensures !found ==> ps' == ps && gs' == gs
  {
    found, ps', gs' := false, ps, gs;
    var paramCount := |ps|;
    var i := 0;
    while i < paramCount
      invariant 0 <= i <= paramCount == |ps|
      invariant !found && ps' == ps && gs' == gs
      invariant FindDup(ps) == FindDupFrom(ps, i, i + 1)
    {
      found, ps', gs' := MergeFrom(ps, gs, i);
      if found {
        break;
      }
      i := i + 1;
    }
  }

  /** The inner loop of a pass, for slot `i`: the first later slot tied to
      it is merged into it; with none, the scan moves on to slot `i + 1`. */
  method MergeFrom(ps: seq<Param>, gs: seq<Tensor>, i: nat) returns (found: bool, ps': seq<Param>, gs': seq<Tensor>)
    requires Consistent(ps, gs) && i < |ps|
    ensures !found ==> ps' == ps && gs' == gs && FindDupFrom(ps, i, i + 1) == FindDupFrom(ps, i + 1, i + 2)
    ensures found ==> var r := FindDupFrom(ps, i, i + 1);
      && r.Some? && r.value.0 == i && i < r.value.1 < |ps| && IsDup(ps, i, r.value.1)
      && (ps', gs') == Merge(ps, gs, i, r.value.1)
  {
    found, ps', gs' := false, ps, gs;
    var paramCount := |ps|;
    var j := i + 1;
    while j < paramCount
      invariant i + 1 <= j <= paramCount == |ps|
      invariant FindDupFrom(ps, i, i + 1) == FindDupFrom(ps, i, j)
    {
      // Each branch ends with the loop's `break if found`.
      if ps'[i].id == ps'[j].id {
        gs' := gs'[i := Add(gs'[i], gs'[j])];
        found := true;
        ps' := DeleteAt(ps', j);
        gs' := DeleteAt(gs', j);
        assert (ps', gs') == Merge(ps, gs, i, j);
        return;
      } else if ps'[i].value.Matrix? && ps'[j].value.Matrix?
          && WellFormedMatrix(ps'[i].value) && Transpose(ps'[i].value) == ps'[j].value {
        gs' := gs'[i := Add(gs'[i], Transpose(gs'[j]))];
        found := true;
        ps' := DeleteAt(ps', j);
        gs' := DeleteAt(gs', j);
        assert (ps', gs') == Merge(ps, gs, i, j);
        return;
      }
      j := j + 1;
    }
  }

  // ---------------------------------------------------------------------
  // RnnlmTrainer#get_batch

  /** A value stored into a `Numo::UInt32` array: Ruby integers wrap modulo 2^32. */
  function UInt32(v: int): (r: nat)
    ensures r < 0x1_0000_0000
    ensures 0 <= v < 0x1_0000_0000 ==> r == v
  {
    v % 0x1_0000_0000
  }

  /** The position read for stream `i` at step `time` of a call that starts
      at `time_idx == t0`: stream `i` starts `i * (data_size / batch_size)`
      words into the data and the read position wraps round its end. */
  function BatchIndex(dataSize: nat, batchSize: nat, t0: nat, i: nat, time: nat): (k: nat)
    requires dataSize > 0 && batchSize > 0
    ensures k < dataSize
  {
    (i * (dataSize / batchSize) + (t0 + time)) % dataSize
  }

  /** Every stream of step `time` reads a position that `ts` has. */
  ghost predicate StepFits(targetSize: nat, dataSize: nat, batchSize: nat, t0: nat, time: nat)
    requires dataSize > 0 && batchSize > 0
  {
    forall i :: 0 <= i < batchSize ==> BatchIndex(dataSize, batchSize, t0, i, time) < targetSize
  }

  lemma ModSucc(a: nat, n: nat)
    requires n > 0
    ensures (a % n + 1) % n == (a + 1) % n
  {
    var q, r := a / n, a % n;
    assert a == q * n + r;
    if r + 1 < n {
      Arithmetic.DivModOf(q, r + 1, n);
      Arithmetic.DivModOf(0, r + 1, n);
    } else {
      assert a + 1 == (q + 1) * n + 0;
      Arithmetic.DivModOf(q + 1, 0, n);
      Arithmetic.DivModOf(1, 0, n);
    }
  }

  /** Each stream moves one word further per time step, wrapping round the
      end of the data. */
  lemma BatchIndexStep(dataSize: nat, batchSize: nat, t0: nat, i: nat, time: nat)
    requires dataSize > 0 && batchSize > 0
    ensures BatchIndex(dataSize, batchSize, t0, i, time + 1)
      == (BatchIndex(dataSize, batchSize, t0, i, time) + 1) % dataSize
  {
    ModSucc(i * (dataSize / batchSize) + (t0 + time), dataSize);
  }

  /** When there are no more streams than words, the streams of one step
      read pairwise different words. */
  lemma StreamsDisjoint(dataSize: nat, batchSize: nat, t0: nat, time: nat, i: nat, i': nat)
    requires 0 < batchSize <= dataSize
    requires i < i' < batchSize
    ensures BatchIndex(dataSize, batchSize, t0, i, time) != BatchIndex(dataSize, batchSize, t0, i', time)
  {
    var jump := dataSize / batchSize;
    assert jump >= 1 by {
      assert dataSize == batchSize * jump + dataSize % batchSize;
    }
    var d := i' - i;
    assert i' * jump - i * jump == d * jump;
    Arithmetic.MulLeft(1, d, jump);
    Arithmetic.MulLeft(d, batchSize - 1, jump);
    assert batchSize * jump <= dataSize;
    Arithmetic.DistinctRemainders(i * jump + (t0 + time), i' * jump + (t0 + time), dataSize);
  }

  /** The two `UInt32` matrices `get_batch` returns. */
  datatype Batch = Batch(x: array2<nat>, t: array2<nat>)

  /** `x` and `t` are the values stream `i` reads at step `time`. */
  ghost predicate CellRead(x: nat, t: nat, xs: seq<int>, ts: seq<int>, batchSize: nat, t0: nat, i: nat, time: nat)
    requires |xs| > 0 && batchSize > 0
  {
    var k := BatchIndex(|xs|, batchSize, t0, i, time);
    k < |ts| && x == UInt32(xs[k]) && t == UInt32(ts[k])
  }

  /** Every step before `time`, and the first `i` streams of step `time`,
      have been read. */
  ghost predicate Filled(batchX: array2<nat>, batchT: array2<nat>, xs: seq<int>, ts: seq<int>, t0: nat, time: nat, i: nat)
    reads batchX, batchT
    requires |xs| > 0 && batchX.Length0 > 0
    requires batchX.Length0 == batchT.Length0 && batchX.Length1 == batchT.Length1
  {
    forall i', tm :: 0 <= i' < batchX.Length0 && 0 <= tm < batchX.Length1 && (tm < time || (tm == time && i' < i)) ==>
      CellRead(batchX[i', tm], batchT[i', tm], xs, ts, batchX.Length0, t0, i', tm)
  }

  /** One step of `get_batch`: every stream reads the word at its offset
      plus the current position `pos`. Stops at the first read of `ts`
      past its end. */
  method ReadStep(batchX: array2<nat>, batchT: array2<nat>, xs: seq<int>, ts: seq<int>, ghost t0: nat, time: nat, pos: nat)
    returns (ok: bool)
    requires |xs| > 0 && batchX.Length0 > 0 && batchX != batchT
    requires batchX.Length0 == batchT.Length0 && time < batchX.Length1 == batchT.Length1
    requires pos == t0 + time
    requires Filled(batchX, batchT, xs, ts, t0, time, 0)
    modifies batchX, batchT
    ensures ok <==> StepFits(|ts|, |xs|, batchX.Length0, t0, time)
    ensures ok ==> Filled(batchX, batchT, xs, ts, t0, time + 1, 0)
  {
    var dataSize, batchSize := |xs|, batchX.Length0;
    var jump := dataSize / batchSize;
    var i := 0;
    while i < batchSize
      invariant i <= batchSize
      invariant forall i' :: 0 <= i' < i ==> BatchIndex(dataSize, batchSize, t0, i', time) < |ts|
      invariant Filled(batchX, batchT, xs, ts, t0, time, i)
    {
      var k := (i * jump + pos) % dataSize;
      assert k == BatchIndex(dataSize, batchSize, t0, i, time);
      batchX[i, time] := UInt32(xs[k]);
      if k >= |ts| {
        return false;
      }
      batchT[i, time] := UInt32(ts[k]);
      assert CellRead(batchX[i, time], batchT[i, time], xs, ts, batchSize, t0, i, time);
      i := i + 1;
    }
    return true;
  }

  /** The trainer's reading position: `nil` until `fit` starts. The model,
      the optimizer and the perplexity bookkeeping do not take part in
      batching and are not fields here. */
  class RnnlmTrainer {
    var timeIdx: Option<nat>

    constructor ()
      ensures timeIdx == None
    {
      timeIdx := None;
    }

    /** What `fit` does to the reading position before its first batch. */
    method StartFit()
      modifies this
      ensures timeIdx == Some(0)
    {
      timeIdx := Some(0);
    }

    /** `get_batch(x, t, batch_size, time_size)`: `batch_size` streams
        spread evenly over the data, each read for `time_size` consecutive
        steps from the current position, which then moves on by
        `time_size`. `data_size / batch_size` raises for a batch size of 0;
        the first read raises TypeError when `fit` has not set the position
        and ZeroDivisionError for empty data; a read of `t` past its end
        raises IndexError, leaving the position advanced by the steps
        already finished. */
    method GetBatch(xs: seq<int>, ts: seq<int>, batchSize: nat, timeSize: nat) returns (r: Result<Batch, Failure>)
      modifies this
      ensures batchSize == 0 ==> r == Err(ZeroDivisionError) && timeIdx == old(timeIdx)
      ensures batchSize > 0 && timeSize > 0 && old(timeIdx).None? ==> r == Err(TypeError) && timeIdx == old(timeIdx)
      ensures batchSize > 0 && timeSize > 0 && old(timeIdx).Some? && |xs| == 0 ==>
        r == Err(ZeroDivisionError) && timeIdx == old(timeIdx)
      ensures r.Ok? <==>
        (batchSize > 0 && (timeSize == 0 || (old(timeIdx).Some? && |xs| > 0 &&
          forall time :: 0 <= time < timeSize ==> StepFits(|ts|, |xs|, batchSize, old(timeIdx).value, time))))
      ensures batchSize > 0 && timeSize > 0 && old(timeIdx).Some? && |xs| > 0 && r.Err? ==> r == Err(IndexError)
      ensures r == Err(IndexError) ==>
        (old(timeIdx).Some? && |xs| > 0 && batchSize > 0 && timeIdx.Some? &&
         old(timeIdx).value <= timeIdx.value < old(timeIdx).value + timeSize &&
         !StepFits(|ts|, |xs|, batchSize, old(timeIdx).value, timeIdx.value - old(timeIdx).value) &&
         forall time :: 0 <= time < timeIdx.value - old(timeIdx).value ==> StepFits(|ts|, |xs|, batchSize, old(timeIdx).value, time))
      ensures r.Ok? ==> fresh(r.value.x) && fresh(r.value.t)
      ensures r.Ok? ==> r.value.x.Length0 == r.value.t.Length0 == batchSize && r.value.x.Length1 == r.value.t.Length1 == timeSize
      ensures r.Ok? ==> timeIdx == if timeSize == 0 then old(timeIdx) else Some(old(timeIdx).value + timeSize)
      ensures r.Ok? && timeSize > 0 ==> Filled(r.value.x, r.value.t, xs, ts, old(timeIdx).value, timeSize, 0)
    {
      var batchX := new nat[batchSize, timeSize]((i, j) => 0);
      var batchT := new nat[batchSize, timeSize]((i, j) => 0);
      var dataSize := |xs|;
      if batchSize == 0 {
        return Err(ZeroDivisionError);
      }
      var jump := dataSize / batchSize;
      if timeSize == 0 {
        return Ok(Batch(batchX, batchT));
      }
      // The first read, stream 0 at step 0, adds the position and takes it
      // modulo the data size.
      if timeIdx.None? {
        return Err(TypeError);
      }
      if dataSize == 0 {
        return Err(ZeroDivisionError);
      }
      ghost var t0 := timeIdx.value;
      var time := 0;
      while time < timeSize
        invariant time <= timeSize
        invariant timeIdx == Some(t0 + time)
        invariant forall tm :: 0 <= tm < time ==> StepFits(|ts|, dataSize, batchSize, t0, tm)
        invariant Filled(batchX, batchT, xs, ts, t0, time, 0)
      {
        var ok := ReadStep(batchX, batchT, xs, ts, t0, time, timeIdx.value);
        if !ok {
          return Err(IndexError);
        }
        timeIdx := Some(timeIdx.value + 1);
        time := time + 1;
      }
      return Ok(Batch(batchX, batchT));
    }
  }
}
