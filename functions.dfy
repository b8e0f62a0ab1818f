/** The index arithmetic of common/functions.rb: flat indices into row-major
    Numo arrays (`to_full_index`, `paired_access_idxs`), index lists for one
    dimension (`dim_full_indices`, `get_at_dim_index`), `argmax` and the
    argument handling of `random_choice`. The floating-point functions of
    that file (`sigmoid`, `softmax`, `cross_entropy_error`) are not part of
    this model. */
module Functions {
  import opened Outcomes
  import opened Sequences
  import opened Arithmetic

  // ---------------------------------------------------------------------
  // Row-major layout of a matrix, as Numo stores it

  ghost predicate Rectangular(m: seq<seq<int>>, cols: nat) {
    forall i :: 0 <= i < |m| ==> |m[i]| == cols
  }

  /** The elements of `m` row after row: the flat view a single index uses. */
  function Flatten(m: seq<seq<int>>): seq<int> {
    if m == [] then [] else m[0] + Flatten(m[1..])
  }

  lemma {:induction false} FlattenLength(m: seq<seq<int>>, cols: nat)
    requires Rectangular(m, cols)
    ensures |Flatten(m)| == |m| * cols
  {
    if m != [] {
      FlattenLength(m[1..], cols);
      assert |m| * cols == cols + (|m| - 1) * cols;
    }
  }

  /** Element `j` of row `i` sits at flat index `cols * i + j`. */
  lemma {:induction false} FlattenAt(m: seq<seq<int>>, cols: nat, i: nat, j: nat)
    requires Rectangular(m, cols) && i < |m| && j < cols
    ensures cols * i + j < |Flatten(m)|
    ensures Flatten(m)[cols * i + j] == m[i][j]
  {
    FlattenLength(m, cols);
    MulLeft(i + 1, |m|, cols);
    if i > 0 {
      FlattenAt(m[1..], cols, i - 1, j);
      assert cols * i + j == cols + (cols * (i - 1) + j);
    }
  }

  // ---------------------------------------------------------------------
  // to_full_index

  /** `to_full_index(t, cls_count)`: for every row `k` the flat index of its
      element in column `t[k]`, in a matrix with `cls_count` columns. */
  function ToFullIndex(t: seq<int>, clsCount: int): (r: seq<int>)
    ensures |r| == |t|
  {
    seq(|t|, k requires 0 <= k < |t| => clsCount * k + t[k])
  }

  /** A flat index decodes back to its row and its column. */
  lemma ToFullIndexDecodes(t: seq<int>, clsCount: int, k: nat)
    requires k < |t| && 0 <= t[k] < clsCount
    ensures ToFullIndex(t, clsCount)[k] / clsCount == k
    ensures ToFullIndex(t, clsCount)[k] % clsCount == t[k]
  {
    assert ToFullIndex(t, clsCount)[k] == k * clsCount + t[k];
    DivModOf(k, t[k], clsCount);
  }

  /** With every class index in range the flat indices increase strictly, so
      they never name one element twice. */
  lemma ToFullIndexIncreasing(t: seq<int>, clsCount: int, k: nat, l: nat)
    requires k < l < |t|
    requires 0 <= t[k] < clsCount && 0 <= t[l] < clsCount
    ensures ToFullIndex(t, clsCount)[k] < ToFullIndex(t, clsCount)[l]
  {
    MulLeft(k + 1, l, clsCount);
  }

  /** The flat index picks element `t[k]` of row `k`, numpy's `y[arange(n), t]`. */
  lemma ToFullIndexSelects(y: seq<seq<int>>, clsCount: nat, t: seq<int>, k: nat)
    requires Rectangular(y, clsCount) && |t| == |y| && k < |t| && 0 <= t[k] < clsCount
    ensures 0 <= ToFullIndex(t, clsCount)[k] < |Flatten(y)|
    ensures Flatten(y)[ToFullIndex(t, clsCount)[k]] == y[k][t[k]]
  {
    FlattenAt(y, clsCount, k, t[k]);
  }

  // ---------------------------------------------------------------------
  // paired_access_idxs

  /** `paired_access_idxs(x, idxs1, idxs2)` for an array of shape `shape`:
      the flat indices of the elements `x[idxs1[i], idxs2[i]]`. Ruby raises
      NoMethodError when `x.shape[1]` is nil (rank below 2) and TypeError
      when `idxs2` runs out, but only once the `map` reaches an element. */
  function PairedAccessIdxs(shape: seq<nat>, idxs1: seq<int>, idxs2: seq<int>): (r: Result<seq<int>, Failure>)
    ensures r.Ok? <==> |idxs1| == 0 || (|shape| >= 2 && |idxs2| >= |idxs1|)
    ensures r.Ok? ==> |r.value| == |idxs1|
    ensures r.Err? ==> r.error == if |shape| < 2 then NoMethodError else TypeError
  {
    if |idxs1| == 0 then Ok([])
    else if |shape| < 2 then Err(NoMethodError)
    else if |idxs2| < |idxs1| then Err(TypeError)
    else Ok(seq(|idxs1|, i requires 0 <= i < |idxs1| => shape[1] * idxs1[i] + idxs2[i]))
  }

  /** Each paired index selects `x[idxs1[i]][idxs2[i]]` of the matrix. */
  lemma PairedAccessIdxsSelects(x: seq<seq<int>>, cols: nat, idxs1: seq<int>, idxs2: seq<int>, i: nat)
    requires Rectangular(x, cols) && |idxs2| >= |idxs1| && i < |idxs1|
    requires 0 <= idxs1[i] < |x| && 0 <= idxs2[i] < cols
    ensures PairedAccessIdxs([|x|, cols], idxs1, idxs2).Ok?
    ensures var r := PairedAccessIdxs([|x|, cols], idxs1, idxs2).value;
            0 <= r[i] < |Flatten(x)| && Flatten(x)[r[i]] == x[idxs1[i]][idxs2[i]]
  {
    FlattenAt(x, cols, idxs1[i], idxs2[i]);
  }

  /** `to_full_index(t, c)` is `paired_access_idxs` with the row numbers
      `0...n` as first index list, the form time_layers.rb uses. */
  lemma ToFullIndexIsPairedAccess(t: seq<int>, clsCount: nat)
    ensures PairedAccessIdxs([|t|, clsCount], Range(|t|), t) == Ok(ToFullIndex(t, clsCount))
  {
    if |t| > 0 {
      var r := PairedAccessIdxs([|t|, clsCount], Range(|t|), t).value;
      assert forall k :: 0 <= k < |t| ==> r[k] == ToFullIndex(t, clsCount)[k];
      assert r == ToFullIndex(t, clsCount);
    }
  }

  // ---------------------------------------------------------------------
  // Numo arrays

  /** A Numo array of integers: its shape and its elements in row-major order. */
  datatype NdArray = NdArray(shape: seq<nat>, data: seq<int>)

  function Prod(s: seq<nat>): nat {
    if s == [] then 1 else s[0] * Prod(s[1..])
  }

  ghost predicate WellShaped(a: NdArray) {
    |a.data| == Prod(a.shape)
  }

  lemma {:induction false} ProdSplit(s: seq<nat>, ax: nat)
    requires ax < |s|
    ensures Prod(s) == Prod(s[..ax]) * s[ax] * Prod(s[ax + 1..])
  {
    if ax > 0 {
      ProdSplit(s[1..], ax - 1);
      assert s[1..][..ax - 1] == s[..ax][1..];
      assert s[1..][ax - 1 + 1..] == s[ax + 1..];
      var p, x, q := Prod(s[..ax][1..]), s[ax], Prod(s[ax + 1..]);
      assert Prod(s[1..]) == p * x * q;
      assert Prod(s[..ax]) == s[0] * p;
      assert s[0] * (p * x * q) == (s[0] * p) * x * q;
    } else {
      assert s[..0] == [];
    }
  }

  /** Seen along axis `ax`, an array has shape `(Outer, Len, Inner)`: the
      dimensions before the axis, the axis, the dimensions after it. */
  function Outer(a: NdArray, ax: nat): nat
    requires ax < |a.shape|
  {
    Prod(a.shape[..ax])
  }

  function Inner(a: NdArray, ax: nat): nat
    requires ax < |a.shape|
  {
    Prod(a.shape[ax + 1..])
  }

  /** Flat position of element `(p, k, q)` of the `(Outer, Len, Inner)` view. */
  function FlatPos(n: nat, inner: nat, p: nat, k: nat, q: nat): nat {
    (p * n + k) * inner + q
  }

  lemma FlatPosBound(outer: nat, n: nat, inner: nat, p: nat, k: nat, q: nat)
    requires p < outer && k < n && q < inner
    ensures FlatPos(n, inner, p, k, q) < outer * n * inner
  {
    MulLeft(p + 1, outer, n);
    MulLeft(p * n + k + 1, outer * n, inner);
  }

  // ---------------------------------------------------------------------
  // dim_full_indices and get_at_dim_index

  /** One entry of a Numo index list: `true` (the whole dimension), `nil`
      (padding Ruby inserts when assigning past the end of an Array) or the
      caller's selector. */
  datatype Slot<S> = All | Nil | Pick(sel: S)

  /** The position `dim_no` names in an Array of length `ndim`, negative
      positions counting from the end as Ruby's `[]=` does. */
  function SlotPosition(ndim: nat, dimNo: int): int {
    if dimNo >= 0 then dimNo else ndim + dimNo
  }

  /** `dim_full_indices(x, dim_no, idxs)` for an array of rank `ndim`:
      `Array.new(ndim, true)` with `idxs` stored at `dim_no`. */
  function DimFullIndices<S>(ndim: nat, dimNo: int, idxs: S): (r: Result<seq<Slot<S>>, Failure>)
    ensures r.Err? <==> dimNo + ndim < 0
    ensures r.Err? ==> r.error == IndexError
    ensures r.Ok? ==> var pos := SlotPosition(ndim, dimNo);
      && 0 <= pos < |r.value|
      && |r.value| == (if dimNo < ndim then ndim else dimNo + 1)
      && r.value[pos] == Pick(idxs)
      && (forall k :: 0 <= k < ndim && k != pos ==> r.value[k] == All)
      && (forall k :: ndim <= k < |r.value| && k != pos ==> r.value[k] == Nil)
  {
    var ind := seq(ndim, _ => All);
    if 0 <= dimNo < ndim then Ok(ind[dimNo := Pick(idxs)])
    else if dimNo >= ndim then Ok(ind + seq(dimNo - ndim, _ => Nil) + [Pick(idxs)])
    else if dimNo + ndim >= 0 then Ok(ind[ndim + dimNo := Pick(idxs)])
    else Err(IndexError)
  }

  /** A Numo index into a dimension of length `n`: negative indices count
      from the end, anything outside `-n ... n` is an IndexError. */
  function NormIndex(n: nat, i: int): Option<nat> {
    if 0 <= i < n then Some(i) else if 0 <= n + i && i < 0 then Some(n + i) else None
  }

  predicate IndicesIn(n: nat, idxs: seq<int>) {
    forall k :: 0 <= k < |idxs| ==> NormIndex(n, idxs[k]).Some?
  }

  function At(n: nat, idxs: seq<int>, k: nat): (r: nat)
    requires k < |idxs| && IndicesIn(n, idxs)
    ensures r < n
  {
    NormIndex(n, idxs[k]).value
  }

  /** `get_at_dim_index` accepts one index, which drops the dimension as
      Numo does for an Integer subscript, or an Array of indices, which
      keeps the dimension with one entry per index. */
  datatype Selector = Index(i: int) | Indices(list: seq<int>)

  /** The positions a selector names in a dimension of length `n`,
      normalised; `None` when one of them lies outside the dimension. */
  function Picked(n: nat, sel: Selector): (r: Option<seq<nat>>)
    ensures r.Some? <==> match sel
      case Index(i) => NormIndex(n, i).Some?
      case Indices(list) => IndicesIn(n, list)
    ensures r.Some? ==> forall k :: 0 <= k < |r.value| ==> r.value[k] < n
  {
    match sel
    case Index(i) => if NormIndex(n, i).Some? then Some([NormIndex(n, i).value]) else None
    case Indices(list) =>
      if IndicesIn(n, list) then Some(seq(|list|, k requires 0 <= k < |list| => At(n, list, k))) else None
  }

  /** The shape of `x[*ind]`: an Integer selector removes the axis, an
      Array selector gives it one entry per index. */
  function SelectedShape(shape: seq<nat>, ax: nat, sel: Selector): seq<nat>
    requires ax < |shape|
  {
    match sel
    case Index(_) => shape[..ax] + shape[ax + 1..]
    case Indices(list) => shape[ax := |list|]
  }

  /** The product of a concatenation is the product of the parts. */
  lemma {:induction false} ProdConcat(s: seq<nat>, t: seq<nat>)
    ensures Prod(s + t) == Prod(s) * Prod(t)
  {
    if s == [] {
      assert s + t == t;
    } else {
      assert (s + t)[1..] == s[1..] + t;
      ProdConcat(s[1..], t);
      assert s[0] * (Prod(s[1..]) * Prod(t)) == s[0] * Prod(s[1..]) * Prod(t);
    }
  }

  /** Resizing or removing one axis leaves the dimensions around it. */
  lemma ReshapeAxis(shape: seq<nat>, ax: nat, m: nat)
    requires ax < |shape|
    ensures Prod(shape[ax := m]) == Prod(shape[..ax]) * m * Prod(shape[ax + 1..])
    ensures Prod(shape[..ax] + shape[ax + 1..]) == Prod(shape[..ax]) * 1 * Prod(shape[ax + 1..])
  {
    var s := shape[ax := m];
    ProdSplit(s, ax);
    assert s[..ax] == shape[..ax] && s[ax + 1..] == shape[ax + 1..];
    ProdConcat(shape[..ax], shape[ax + 1..]);
  }

  /** Entry `e` of an `(outer, m, inner)` layout is the point
      `(e / inner / m, e / inner % m, e % inner)`. */
  lemma Coords(outer: nat, m: nat, inner: nat, e: nat)
    requires e < outer * m * inner
    ensures m > 0 && inner > 0 && 0 <= e / inner && 0 <= e / inner / m
    ensures e / inner / m < outer && e / inner % m < m && e % inner < inner
    ensures FlatPos(m, inner, e / inner / m, e / inner % m, e % inner) == e
  {
    OutputPoint(outer * m, inner, e);
    OutputPoint(outer, m, e / inner);
  }

  /** The flat position of `(p, k, q)` decodes back to `p`, `k` and `q`. */
  lemma FlatCoords(n: nat, inner: nat, p: nat, k: nat, q: nat)
    requires k < n && q < inner
    ensures FlatPos(n, inner, p, k, q) % inner == q
    ensures FlatPos(n, inner, p, k, q) / inner / n == p
    ensures FlatPos(n, inner, p, k, q) / inner % n == k
  {
    DivModOf(p * n + k, q, inner);
    DivModOf(p, k, n);
  }

  /** The elements at positions `pick` of every lane along `ax`, laid out
      row-major with axis `ax` replaced by `|pick|` entries. */
  function Gather(a: NdArray, ax: nat, pick: seq<nat>): (r: seq<int>)
    requires WellShaped(a) && ax < |a.shape|
    requires forall k :: 0 <= k < |pick| ==> pick[k] < a.shape[ax]
    ensures |r| == Outer(a, ax) * |pick| * Inner(a, ax)
  {
    var outer, n, inner, m := Outer(a, ax), a.shape[ax], Inner(a, ax), |pick|;
    ProdSplit(a.shape, ax);
    seq(outer * m * inner, e requires 0 <= e < outer * m * inner =>
      GatherSource(outer, n, inner, pick, e);
      a.data[FlatPos(n, inner, e / inner / m, pick[e / inner % m], e % inner)])
  }

  /** The element entry `e` of a gather reads lies inside the array. */
  lemma GatherSource(outer: nat, n: nat, inner: nat, pick: seq<nat>, e: nat)
    requires forall k :: 0 <= k < |pick| ==> pick[k] < n
    requires e < outer * |pick| * inner
    ensures inner > 0 && |pick| > 0 && 0 <= e / inner / |pick| && 0 <= e / inner % |pick| < |pick|
    ensures FlatPos(n, inner, e / inner / |pick|, pick[e / inner % |pick|], e % inner) < outer * n * inner
  {
    var m := |pick|;
    Coords(outer, m, inner, e);
    FlatPosBound(outer, n, inner, e / inner / m, pick[e / inner % m], e % inner);
  }

  /** Element `(p, k, q)` of the gathered data is element `(p, pick[k], q)`
      of the array. */
  lemma GatherAt(a: NdArray, ax: nat, pick: seq<nat>, p: nat, k: nat, q: nat)
    requires WellShaped(a) && ax < |a.shape|
    requires forall k :: 0 <= k < |pick| ==> pick[k] < a.shape[ax]
    requires p < Outer(a, ax) && k < |pick| && q < Inner(a, ax)
    ensures FlatPos(|pick|, Inner(a, ax), p, k, q) < |Gather(a, ax, pick)|
    ensures FlatPos(a.shape[ax], Inner(a, ax), p, pick[k], q) < |a.data|
    ensures Gather(a, ax, pick)[FlatPos(|pick|, Inner(a, ax), p, k, q)]
      == a.data[FlatPos(a.shape[ax], Inner(a, ax), p, pick[k], q)]
  {
    ProdSplit(a.shape, ax);
    FlatPosBound(Outer(a, ax), a.shape[ax], Inner(a, ax), p, pick[k], q);
    FlatPosBound(Outer(a, ax), |pick|, Inner(a, ax), p, k, q);
    FlatCoords(|pick|, Inner(a, ax), p, k, q);
  }

  /** Gathering twice along the same axis is gathering once with the
      composed positions. */
  lemma GatherCompose(a: NdArray, ax: nat, p1: seq<nat>, p2: seq<nat>)
    requires WellShaped(a) && ax < |a.shape|
    requires forall k :: 0 <= k < |p1| ==> p1[k] < a.shape[ax]
    requires forall k :: 0 <= k < |p2| ==> p2[k] < |p1|
    ensures WellShaped(NdArray(a.shape[ax := |p1|], Gather(a, ax, p1)))
    ensures Gather(NdArray(a.shape[ax := |p1|], Gather(a, ax, p1)), ax, p2)
         == Gather(a, ax, seq(|p2|, k requires 0 <= k < |p2| => p1[p2[k]]))
  {
    ReshapeAxis(a.shape, ax, |p1|);
    var b := NdArray(a.shape[ax := |p1|], Gather(a, ax, p1));
    assert b.shape[..ax] == a.shape[..ax] && b.shape[ax + 1..] == a.shape[ax + 1..];
    var pc: seq<nat> := seq(|p2|, k requires 0 <= k < |p2| => p1[p2[k]]);
    var outer, inner, m := Outer(a, ax), Inner(a, ax), |p2|;
    var lhs, rhs := Gather(b, ax, p2), Gather(a, ax, pc);
    forall e | 0 <= e < |lhs|
      ensures lhs[e] == rhs[e]
    {
      Coords(outer, m, inner, e);
      var p, k, q := e / inner / m, e / inner % m, e % inner;
      GatherAt(a, ax, p1, p, p2[k], q);
    }
  }

  /** `get_at_dim_index(x, dim_no, idxs)`: `dim_full_indices` puts the
      selector at `dim_no` among `true`s, and `x[*ind]` selects with it.
      An index list longer than the rank and an index outside its
      dimension are IndexErrors. An Integer selector on a vector gives a
      Ruby number; here it is the array of shape `[]` holding it. */
  function GetAtDimIndex(x: NdArray, dimNo: int, sel: Selector): (r: Result<NdArray, Failure>)
    requires WellShaped(x)
    ensures r.Ok? <==> -|x.shape| <= dimNo < |x.shape| && Picked(x.shape[SlotPosition(|x.shape|, dimNo)], sel).Some?
    ensures r.Err? ==> r.error == IndexError
    ensures r.Ok? ==> WellShaped(r.value) && r.value.shape == SelectedShape(x.shape, SlotPosition(|x.shape|, dimNo), sel)
  {
    match DimFullIndices(|x.shape|, dimNo, sel)
    case Err(e) => Err(e)
    case Ok(ind) =>
      if |ind| != |x.shape| then Err(IndexError)
      else
        var ax := SlotPosition(|x.shape|, dimNo);
        match Picked(x.shape[ax], sel)
        case None => Err(IndexError)
        case Some(pick) =>
          ReshapeAxis(x.shape, ax, |pick|);
          Ok(NdArray(SelectedShape(x.shape, ax, sel), Gather(x, ax, pick)))
  }

  /** With an Array selector, element `(p, k, q)` of the result is element
      `(p, idxs[k], q)` of `x`, negative indices counting from the end, and
      the dimensions around the axis are those of `x`. */
  lemma GetAtDimIndexAt(x: NdArray, dimNo: int, ax: nat, idxs: seq<int>, p: nat, k: nat, q: nat)
    requires WellShaped(x) && -|x.shape| <= dimNo < |x.shape| && ax == SlotPosition(|x.shape|, dimNo)
    requires IndicesIn(x.shape[ax], idxs)
    requires p < Outer(x, ax) && k < |idxs| && q < Inner(x, ax)
    ensures GetAtDimIndex(x, dimNo, Indices(idxs)).Ok?
    ensures var y := GetAtDimIndex(x, dimNo, Indices(idxs)).value;
      && Outer(y, ax) == Outer(x, ax) && Inner(y, ax) == Inner(x, ax)
      && FlatPos(|idxs|, Inner(x, ax), p, k, q) < |y.data|
      && FlatPos(x.shape[ax], Inner(x, ax), p, At(x.shape[ax], idxs, k), q) < |x.data|
      && y.data[FlatPos(|idxs|, Inner(x, ax), p, k, q)]
         == x.data[FlatPos(x.shape[ax], Inner(x, ax), p, At(x.shape[ax], idxs, k), q)]
  {
    var y := GetAtDimIndex(x, dimNo, Indices(idxs)).value;
    assert y.shape[..ax] == x.shape[..ax] && y.shape[ax + 1..] == x.shape[ax + 1..];
    GatherAt(x, ax, Picked(x.shape[ax], Indices(idxs)).value, p, k, q);
  }

  /** With an Integer selector `i`, element `(p, q)` of the result is
      element `(p, i, q)` of `x`. */
  lemma GetAtDimIndexScalarAt(x: NdArray, dimNo: int, ax: nat, i: int, p: nat, q: nat)
    requires WellShaped(x) && -|x.shape| <= dimNo < |x.shape| && ax == SlotPosition(|x.shape|, dimNo)
    requires NormIndex(x.shape[ax], i).Some?
    requires p < Outer(x, ax) && q < Inner(x, ax)
    ensures GetAtDimIndex(x, dimNo, Index(i)).Ok?
    ensures var y := GetAtDimIndex(x, dimNo, Index(i)).value;
      && p * Inner(x, ax) + q < |y.data|
      && FlatPos(x.shape[ax], Inner(x, ax), p, NormIndex(x.shape[ax], i).value, q) < |x.data|
      && y.data[p * Inner(x, ax) + q] == x.data[FlatPos(x.shape[ax], Inner(x, ax), p, NormIndex(x.shape[ax], i).value, q)]
  {
    var inner := Inner(x, ax);
    GatherAt(x, ax, [NormIndex(x.shape[ax], i).value], p, 0, q);
    assert FlatPos(1, inner, p, 0, q) == p * inner + q;
  }

  /** An Integer selector selects what the one-element Array selector does,
      with the axis removed from the shape. */
  lemma GetAtDimIndexScalarIsSingleton(x: NdArray, dimNo: int, i: int)
    requires WellShaped(x)
    ensures GetAtDimIndex(x, dimNo, Index(i)).Ok? <==> GetAtDimIndex(x, dimNo, Indices([i])).Ok?
    ensures GetAtDimIndex(x, dimNo, Index(i)).Ok? ==>
      var y, z, ax := GetAtDimIndex(x, dimNo, Index(i)).value, GetAtDimIndex(x, dimNo, Indices([i])).value, SlotPosition(|x.shape|, dimNo);
      && y.data == z.data
      && 0 <= ax < |z.shape| && z.shape[ax] == 1 && y.shape == z.shape[..ax] + z.shape[ax + 1..]
  {
    if -|x.shape| <= dimNo < |x.shape| {
      var ax := SlotPosition(|x.shape|, dimNo);
      var n := x.shape[ax];
      if NormIndex(n, i).Some? {
        assert IndicesIn(n, [i]);
        assert Picked(n, Indices([i])).value == [NormIndex(n, i).value];
        var s := x.shape[ax := 1];
        assert s[..ax] == x.shape[..ax] && s[ax + 1..] == x.shape[ax + 1..];
      } else {
        assert !IndicesIn(n, [i]) by { assert NormIndex(n, [i][0]).None?; }
      }
    }
  }

  /** Selecting the rows `lo...hi` (Trainer#fit's mini-batch range) is a
      contiguous stretch of the data. */
  lemma GetRowsRange(x: NdArray, lo: nat, hi: nat)
    requires WellShaped(x) && |x.shape| > 0 && lo <= hi <= x.shape[0]
    ensures lo * Inner(x, 0) <= hi * Inner(x, 0) <= |x.data|
    ensures GetAtDimIndex(x, 0, Indices(seq(hi - lo, k => lo + k)))
         == Ok(NdArray(x.shape[0 := hi - lo], x.data[lo * Inner(x, 0)..hi * Inner(x, 0)]))
  {
    var inner, n, m := Inner(x, 0), x.shape[0], hi - lo;
    assert x.shape[..0] == [];
    ProdSplit(x.shape, 0);
    MulLeft(lo, hi, inner);
    MulLeft(hi, n, inner);
    var list: seq<int> := seq(m, k => lo + k);
    assert Picked(n, Indices(list)).value == seq(m, k => lo + k);
    GatherRange(x, lo, hi);
  }

  /** Gathering the consecutive rows `lo...hi` reads the data between the
      first element of row `lo` and the first element of row `hi`. */
  lemma GatherRange(x: NdArray, lo: nat, hi: nat)
    requires WellShaped(x) && |x.shape| > 0 && lo <= hi <= x.shape[0]
    ensures lo * Inner(x, 0) <= hi * Inner(x, 0) <= |x.data|
    ensures Gather(x, 0, seq(hi - lo, k => lo + k)) == x.data[lo * Inner(x, 0)..hi * Inner(x, 0)]
  {
    var inner, n, m := Inner(x, 0), x.shape[0], hi - lo;
    assert x.shape[..0] == [];
    ProdSplit(x.shape, 0);
    MulLeft(lo, hi, inner);
    MulLeft(hi, n, inner);
    var g := Gather(x, 0, seq(m, k => lo + k));
    var slice := x.data[lo * inner..hi * inner];
    assert |g| == |slice| by {
      assert |g| == 1 * m * inner;
      assert hi * inner - lo * inner == m * inner;
    }
    forall e | 0 <= e < |g|
      ensures g[e] == slice[e]
    {
      GatherRangeAt(x, lo, hi, e);
    }
  }

  /** Entry `e` of the gather of rows `lo...hi` is element `e` after the
      start of row `lo`. */
  lemma GatherRangeAt(x: NdArray, lo: nat, hi: nat, e: nat)
    requires WellShaped(x) && |x.shape| > 0 && lo <= hi <= x.shape[0]
    requires e < |Gather(x, 0, seq(hi - lo, k => lo + k))|
    ensures lo * Inner(x, 0) + e < |x.data|
    ensures Gather(x, 0, seq(hi - lo, k => lo + k))[e] == x.data[lo * Inner(x, 0) + e]
  {
    var inner, n, m := Inner(x, 0), x.shape[0], hi - lo;
    var pick: seq<nat> := seq(m, k => lo + k);
    assert x.shape[..0] == [];
    assert Outer(x, 0) == 1;
    Coords(1, m, inner, e);
    var k, q := e / inner % m, e % inner;
    GatherAt(x, 0, pick, 0, k, q);
    RangeOffset(n, m, inner, lo, k, q);
  }

  lemma RangeOffset(n: nat, m: nat, inner: nat, lo: nat, k: nat, q: nat)
    ensures FlatPos(n, inner, 0, lo + k, q) == lo * inner + FlatPos(m, inner, 0, k, q)
  {
    assert (lo + k) * inner == lo * inner + k * inner;
  }

  /** Selecting `p` along a dimension, then `q` along the same dimension of
      the result, is selecting `p[q[k]]` once. */
  lemma GetAtDimIndexCompose(x: NdArray, dimNo: int, p: seq<nat>, q: seq<nat>)
    requires WellShaped(x) && -|x.shape| <= dimNo < |x.shape|
    requires forall k :: 0 <= k < |p| ==> p[k] < x.shape[SlotPosition(|x.shape|, dimNo)]
    requires forall k :: 0 <= k < |q| ==> q[k] < |p|
    ensures GetAtDimIndex(x, dimNo, Indices(p)).Ok?
    ensures GetAtDimIndex(GetAtDimIndex(x, dimNo, Indices(p)).value, dimNo, Indices(q))
         == GetAtDimIndex(x, dimNo, Indices(seq(|q|, k requires 0 <= k < |q| => p[q[k]])))
  {
    var ax := SlotPosition(|x.shape|, dimNo);
    var n := x.shape[ax];
    var pc: seq<nat> := seq(|q|, k requires 0 <= k < |q| => p[q[k]]);
    assert IndicesIn(n, p);
    assert Picked(n, Indices(p)).value == p;
    var y := GetAtDimIndex(x, dimNo, Indices(p)).value;
    assert IndicesIn(|p|, q);
    assert Picked(|p|, Indices(q)).value == q;
    assert IndicesIn(n, pc);
    assert Picked(n, Indices(pc)).value == pc;
    assert y.shape[ax := |q|] == x.shape[ax := |q|];
    GatherCompose(x, ax, p, q);
  }

  // ---------------------------------------------------------------------
  // argmax

  /** The lane of the array along `ax` through the point `(p, q)`. */
  function Lane(a: NdArray, ax: nat, p: nat, q: nat): (r: seq<int>)
    requires WellShaped(a) && ax < |a.shape| && p < Outer(a, ax) && q < Inner(a, ax)
    ensures |r| == a.shape[ax]
  {
    ProdSplit(a.shape, ax);
    seq(a.shape[ax], k requires 0 <= k < a.shape[ax] =>
      FlatPosBound(Outer(a, ax), a.shape[ax], Inner(a, ax), p, k, q);
      a.data[FlatPos(a.shape[ax], Inner(a, ax), p, k, q)])
  }

  /** Position of the first largest element, the one Numo's `max_index` reports. */
  function FirstMax(vals: seq<int>): (k: nat)
    requires |vals| > 0
    ensures k < |vals|
    ensures forall j :: 0 <= j < |vals| ==> vals[j] <= vals[k]
    ensures forall j :: 0 <= j < k ==> vals[j] < vals[k]
  {
    if |vals| == 1 then 0
    else
      var k := FirstMax(vals[..|vals| - 1]);
      assert forall j :: 0 <= j < |vals| - 1 ==> vals[..|vals| - 1][j] == vals[j];
      if vals[k] < vals[|vals| - 1] then |vals| - 1 else k
  }

  /** The `(p, q)` point of output entry `e`, output entries being laid out
      row-major over the dimensions other than the axis. */
  lemma OutputPoint(outer: nat, inner: nat, e: nat)
    requires e < outer * inner
    ensures inner > 0 && e / inner < outer && e % inner < inner
  {
    if e / inner >= outer {
      MulLeft(outer, e / inner, inner);
    }
  }

  /** `x.max_index(axis: ax)`: for every lane the flat index of its first
      maximum. */
  function MaxIndex(a: NdArray, ax: nat): (r: seq<nat>)
    requires WellShaped(a) && ax < |a.shape| && a.shape[ax] > 0
    ensures |r| == Outer(a, ax) * Inner(a, ax)
    ensures forall e :: 0 <= e < |r| ==> r[e] < |a.data|
  {
    seq(Outer(a, ax) * Inner(a, ax), e requires 0 <= e < Outer(a, ax) * Inner(a, ax) => LaneMaxPos(a, ax, e))
  }

  /** Entry `e` of `max_index`: the flat position of the first maximum of
      the lane the entry stands for. */
  function LaneMaxPos(a: NdArray, ax: nat, e: nat): (r: nat)
    requires WellShaped(a) && ax < |a.shape| && a.shape[ax] > 0
    requires e < Outer(a, ax) * Inner(a, ax)
    ensures r < |a.data|
  {
    var outer, n, inner := Outer(a, ax), a.shape[ax], Inner(a, ax);
    OutputPoint(outer, inner, e);
    var k := FirstMax(Lane(a, ax, e / inner, e % inner));
    ProdSplit(a.shape, ax);
    LanePosBound(outer, n, inner, e, k);
    FlatPos(n, inner, e / inner, k, e % inner)
  }

  /** The flat position of element `k` of the lane output entry `e` stands
      for lies inside the array. */
  lemma LanePosBound(outer: nat, n: nat, inner: nat, e: nat, k: nat)
    requires e < outer * inner && k < n
    ensures FlatPos(n, inner, e / inner, k, e % inner) < outer * n * inner
  {
    OutputPoint(outer, inner, e);
    FlatPosBound(outer, n, inner, e / inner, k, e % inner);
  }

  /** Output entry `p * inner + q` belongs to lane `(p, q)`. */
  lemma OutputEntry(outer: nat, inner: nat, p: nat, q: nat)
    requires p < outer && q < inner
    ensures p * inner + q < outer * inner
    ensures (p * inner + q) / inner == p && (p * inner + q) % inner == q
  {
    MulLeft(p + 1, outer, inner);
    DivModOf(p, q, inner);
  }

  /** The entry of `max_index` for lane `(p, q)` is the flat position of the
      first maximum of that lane. */
  lemma MaxIndexAt(a: NdArray, ax: nat, p: nat, q: nat)
    requires WellShaped(a) && ax < |a.shape| && a.shape[ax] > 0
    requires p < Outer(a, ax) && q < Inner(a, ax)
    ensures p * Inner(a, ax) + q < |MaxIndex(a, ax)|
    ensures MaxIndex(a, ax)[p * Inner(a, ax) + q]
      == FlatPos(a.shape[ax], Inner(a, ax), p, FirstMax(Lane(a, ax, p, q)), q)
  {
    OutputEntry(Outer(a, ax), Inner(a, ax), p, q);
  }

  /** The axis an `axis:` argument names in an array of rank `rank`:
      Numo's reductions and Ruby's `shape[axis]` both count a negative
      axis from the end. */
  function AxisOf(rank: nat, axis: Option<int>): (r: Option<nat>)
    ensures r.Some? <==> axis.Some? && 0 <= rank + axis.value && axis.value < rank
    ensures r.Some? ==> r.value < rank
    ensures r.Some? && axis.value >= 0 ==> r.value == axis.value
    ensures r.Some? && axis.value < 0 ==> r.value == rank + axis.value
  {
    if axis.None? then None else NormIndex(rank, axis.value)
  }

  /** `argmax(x, axis:)` as written: `x.max_index(axis: axis) % x.shape[axis]`.
      Without an axis `x.shape[nil]` raises TypeError; an axis outside the
      rank makes `max_index` fail; an empty axis divides by zero. */
  function Argmax(a: NdArray, axis: Option<int>): (r: Result<seq<nat>, Failure>)
    requires WellShaped(a)
    ensures r.Ok? <==> AxisOf(|a.shape|, axis).Some? && a.shape[AxisOf(|a.shape|, axis).value] > 0
    ensures r.Err? && axis.None? ==> r.error == TypeError
    ensures r.Err? && axis.Some? && AxisOf(|a.shape|, axis).None? ==> r.error == AxisError
    ensures r.Err? && AxisOf(|a.shape|, axis).Some? ==> r.error == ZeroDivisionError
    ensures r.Ok? ==> var ax := AxisOf(|a.shape|, axis).value;
      && |r.value| == Outer(a, ax) * Inner(a, ax)
      && forall e :: 0 <= e < |r.value| ==> r.value[e] < a.shape[ax]
  {
    match axis
    case None => Err(TypeError)
    case Some(_) =>
      match AxisOf(|a.shape|, axis)
      case None => Err(AxisError)
      case Some(ax) =>
        if a.shape[ax] == 0 then Err(ZeroDivisionError)
        else
          var m := MaxIndex(a, ax);
          Ok(seq(|m|, e requires 0 <= e < |m| => m[e] % a.shape[ax]))
  }

  /** `k` is the position of the first maximum of lane `(p, q)`. */
  ghost predicate IsLaneMax(a: NdArray, ax: nat, p: nat, q: nat, k: nat)
    requires WellShaped(a) && ax < |a.shape| && p < Outer(a, ax) && q < Inner(a, ax)
  {
    var lane := Lane(a, ax, p, q);
    && k < |lane|
    && (forall j :: 0 <= j < |lane| ==> lane[j] <= lane[k])
    && (forall j :: 0 <= j < k ==> lane[j] < lane[k])
  }

  /** Corrected `argmax`: drop the inner dimensions from the flat index before
      taking it modulo the axis length. */
  function ArgmaxAlong(a: NdArray, axis: Option<int>): (r: Result<seq<nat>, Failure>)
    requires WellShaped(a)
    ensures r.Ok? <==> Argmax(a, axis).Ok?
    ensures r.Err? ==> r.error == Argmax(a, axis).error
    ensures r.Err? && AxisOf(|a.shape|, axis).Some? ==> r.error == ZeroDivisionError
    ensures r.Ok? ==> |r.value| == |Argmax(a, axis).value|
    ensures r.Ok? ==> var ax := AxisOf(|a.shape|, axis).value; |r.value| == Outer(a, ax) * Inner(a, ax)
  {
    match axis
    case None => Err(TypeError)
    case Some(_) =>
      match AxisOf(|a.shape|, axis)
      case None => Err(AxisError)
      case Some(ax) =>
        if a.shape[ax] == 0 then Err(ZeroDivisionError)
        else
          var m := MaxIndex(a, ax);
          var inner := Inner(a, ax);
          Ok(seq(|m|, e requires 0 <= e < |m| => OutputPoint(Outer(a, ax), inner, e); m[e] / inner % a.shape[ax]))
  }

  /** Entry `e` of the corrected `argmax` decodes entry `e` of `max_index`. */
  lemma ArgmaxAlongEntry(a: NdArray, ax: nat, e: nat)
    requires WellShaped(a) && ax < |a.shape| && a.shape[ax] > 0
    requires e < |MaxIndex(a, ax)|
    ensures ArgmaxAlong(a, Some(ax)).Ok? && e < |ArgmaxAlong(a, Some(ax)).value|
    ensures ArgmaxAlong(a, Some(ax)).value[e] == MaxIndex(a, ax)[e] / Inner(a, ax) % a.shape[ax]
  {
  }

  /** The corrected `argmax` at lane `(p, q)` is that lane's `FirstMax`. */
  lemma ArgmaxAlongAt(a: NdArray, ax: nat, p: nat, q: nat)
    requires WellShaped(a) && ax < |a.shape| && a.shape[ax] > 0
    requires p < Outer(a, ax) && q < Inner(a, ax)
    ensures ArgmaxAlong(a, Some(ax)).Ok?
    ensures p * Inner(a, ax) + q < |ArgmaxAlong(a, Some(ax)).value|
    ensures ArgmaxAlong(a, Some(ax)).value[p * Inner(a, ax) + q] == FirstMax(Lane(a, ax, p, q))
  {
    var inner, n, k := Inner(a, ax), a.shape[ax], FirstMax(Lane(a, ax, p, q));
    var e := p * inner + q;
    MaxIndexAt(a, ax, p, q);
    var x, y := MaxIndex(a, ax)[e], FlatPos(n, inner, p, k, q);
    assert x == y;
    FlatCoords(n, inner, p, k, q);
    ArgmaxAlongEntry(a, ax, e);
  }

  /** The corrected `argmax` reports, for every lane along the axis, the
      position of its first maximum. */
  lemma ArgmaxAlongIsLaneMax(a: NdArray, ax: nat, p: nat, q: nat)
    requires WellShaped(a) && ax < |a.shape| && a.shape[ax] > 0
    requires p < Outer(a, ax) && q < Inner(a, ax)
    ensures ArgmaxAlong(a, Some(ax)).Ok?
    ensures p * Inner(a, ax) + q < |ArgmaxAlong(a, Some(ax)).value|
    ensures IsLaneMax(a, ax, p, q, ArgmaxAlong(a, Some(ax)).value[p * Inner(a, ax) + q])
  {
    ArgmaxAlongAt(a, ax, p, q);
  }

  /** Along the last axis the flat-index-modulo trick is right: `argmax`
      agrees with the corrected definition. */
  lemma ArgmaxLastAxis(a: NdArray)
    requires WellShaped(a) && |a.shape| > 0
    ensures Argmax(a, Some(|a.shape| - 1)) == ArgmaxAlong(a, Some(|a.shape| - 1))
  {
    var ax := |a.shape| - 1;
    assert a.shape[ax + 1..] == [];
    assert Inner(a, ax) == 1;
    if a.shape[ax] > 0 {
      var m := MaxIndex(a, ax);
      var r1 := Argmax(a, Some(ax)).value;
      var r2 := ArgmaxAlong(a, Some(ax)).value;
      assert |r1| == |m| == |r2|;
      forall e | 0 <= e < |m|
        ensures r1[e] == r2[e]
      {
        assert m[e] / 1 == m[e];
      }
      assert r1 == r2;
    }
  }

  /** A negative axis names the axis that many places from the end, for
      `argmax` as written and for the corrected definition alike. */
  lemma ArgmaxNegativeAxis(a: NdArray, axis: int)
    requires WellShaped(a) && -|a.shape| <= axis < 0
    ensures Argmax(a, Some(axis)) == Argmax(a, Some(|a.shape| + axis))
    ensures ArgmaxAlong(a, Some(axis)) == ArgmaxAlong(a, Some(|a.shape| + axis))
  {
  }

  /** The 2 x 2 array [[0, 0], [5, 0]] used below. */
  function Witness(): NdArray {
    NdArray([2, 2], [0, 0, 5, 0])
  }

  lemma WitnessShape()
    ensures WellShaped(Witness()) && Outer(Witness(), 0) == 1 && Inner(Witness(), 0) == 2
  {
    var a := Witness();
    assert a.shape[..0] == [] && a.shape[1..] == [2];
    assert Prod([2]) == 2;
  }

  lemma WitnessLanes()
    ensures WellShaped(Witness()) && Outer(Witness(), 0) == 1 && Inner(Witness(), 0) == 2
    ensures Lane(Witness(), 0, 0, 0) == [0, 5] && Lane(Witness(), 0, 0, 1) == [0, 0]
  {
    WitnessShape();
    var a := Witness();
    LaneAt(a, 0, 0, 0, 0);
    LaneAt(a, 0, 0, 0, 1);
    LaneAt(a, 0, 0, 1, 0);
    LaneAt(a, 0, 0, 1, 1);
  }

  /** Element `k` of lane `(p, q)` is element `(p, k, q)` of the array. */
  lemma LaneAt(a: NdArray, ax: nat, p: nat, q: nat, k: nat)
    requires WellShaped(a) && ax < |a.shape| && p < Outer(a, ax) && q < Inner(a, ax) && k < a.shape[ax]
    ensures FlatPos(a.shape[ax], Inner(a, ax), p, k, q) < |a.data|
    ensures Lane(a, ax, p, q)[k] == a.data[FlatPos(a.shape[ax], Inner(a, ax), p, k, q)]
  {
    ProdSplit(a.shape, ax);
    FlatPosBound(Outer(a, ax), a.shape[ax], Inner(a, ax), p, k, q);
  }

  lemma FirstMaxPair(x: int, y: int)
    ensures FirstMax([x, y]) == if x < y then 1 else 0
  {
    assert [x, y][..1] == [x];
  }

  lemma WitnessLaneMax()
    ensures WellShaped(Witness()) && Outer(Witness(), 0) == 1 && Inner(Witness(), 0) == 2
    ensures FirstMax(Lane(Witness(), 0, 0, 0)) == 1 && FirstMax(Lane(Witness(), 0, 0, 1)) == 0
  {
    WitnessLanes();
    FirstMaxPair(0, 5);
    FirstMaxPair(0, 0);
  }

  /** In a 2 x 2 array the entry of `max_index` for column `q` along axis
      0 is the flat position `2 k + q` of the column's first maximum `k`. */
  lemma WitnessMaxIndexAt(a: NdArray, q: nat, k: nat)
    requires WellShaped(a) && |a.shape| == 2 && a.shape[0] == 2 && Outer(a, 0) == 1 && Inner(a, 0) == 2
    requires q < 2 && k == FirstMax(Lane(a, 0, 0, q))
    ensures |MaxIndex(a, 0)| == 2 && MaxIndex(a, 0)[q] == 2 * k + q
  {
    MaxIndexAt(a, 0, 0, q);
  }

  /** Entry `e` of `argmax` along `ax` is entry `e` of `max_index` modulo
      the axis length. */
  lemma ArgmaxEntry(a: NdArray, ax: nat, e: nat)
    requires WellShaped(a) && ax < |a.shape| && a.shape[ax] > 0
    requires e < |MaxIndex(a, ax)|
    ensures Argmax(a, Some(ax)).Ok? && e < |Argmax(a, Some(ax)).value|
    ensures Argmax(a, Some(ax)).value[e] == MaxIndex(a, ax)[e] % a.shape[ax]
  {
  }

  /** In a 2 x 2 array, `argmax` along axis 0 reports row `q` for column
      `q`, wherever the column's maximum is. */
  lemma ArgmaxFirstAxisAt(a: NdArray, q: nat, k: nat)
    requires WellShaped(a) && |a.shape| == 2 && a.shape[0] == 2 && Outer(a, 0) == 1 && Inner(a, 0) == 2
    requires q < 2 && k == FirstMax(Lane(a, 0, 0, q))
    ensures Argmax(a, Some(0)).Ok? && |Argmax(a, Some(0)).value| == 2
    ensures Argmax(a, Some(0)).value[q] == q
  {
    WitnessMaxIndexAt(a, q, k);
    ArgmaxEntry(a, 0, q);
    assert (2 * k + q) % 2 == q;
  }

  /** `argmax` along a leading axis does not give the position of the maximum:
      in [[0, 0], [5, 0]] the maximum of column 0 is in row 1, `argmax`
      along axis 0 says row 0 for column 0 and row 1 for column 1. */
  lemma ArgmaxFirstAxisCounterexample(a: NdArray)
    requires a == Witness()
    ensures WellShaped(a)
    ensures var r := Argmax(a, Some(0));
      r.Ok? && |r.value| == 2 && r.value[0] == 0 && r.value[1] == 1
    ensures !IsLaneMax(a, 0, 0, 0, 0)
  {
    WitnessLaneMax();
    ArgmaxFirstAxisAt(a, 0, 1);
    ArgmaxFirstAxisAt(a, 1, 0);
    WitnessLanes();
  }

  /** The corrected definition reports row 1 for column 0 and row 0 for
      column 1 of [[0, 0], [5, 0]]. */
  lemma ArgmaxAlongWitness(a: NdArray)
    requires a == Witness()
    ensures WellShaped(a)
    ensures var r := ArgmaxAlong(a, Some(0));
      r.Ok? && |r.value| == 2 && r.value[0] == 1 && r.value[1] == 0
  {
    WitnessLaneMax();
    ArgmaxAlongWitnessAt(a, 0, 1);
    ArgmaxAlongWitnessAt(a, 1, 0);
  }

  lemma ArgmaxAlongWitnessAt(a: NdArray, q: nat, k: nat)
    requires WellShaped(a) && |a.shape| == 2 && Outer(a, 0) == 1 && Inner(a, 0) == 2
    requires q < 2 && k < a.shape[0] && k == FirstMax(Lane(a, 0, 0, q))
    ensures ArgmaxAlong(a, Some(0)).Ok? && |ArgmaxAlong(a, Some(0)).value| == 2
    ensures ArgmaxAlong(a, Some(0)).value[q] == k
  {
    assert AxisOf(2, Some(0)) == Some(0);
    assert Outer(a, 0) * Inner(a, 0) == 2;
    ArgmaxAlongAt(a, 0, 0, q);
  }

  // ---------------------------------------------------------------------
  // random_choice

  /** What `random_choice` draws from: an Integer `n` stands for `(0...n)`. */
  datatype Population = Count(n: int) | Items(items: seq<int>)

  function Candidates(a: Population): (r: seq<int>)
    ensures a.Count? ==> |r| == (if a.n < 0 then 0 else a.n) && forall i :: 0 <= i < |r| ==> r[i] == i
    ensures a.Items? ==> r == a.items
  {
    match a
    case Count(n) => if n <= 0 then [] else seq(n, i => i)
    case Items(s) => s
  }

  /** The first position below `n`, outside `taken`, whose key is largest. */
  function BestBelow(keys: seq<real>, taken: seq<nat>, n: nat): (r: Option<nat>)
    requires n <= |keys|
    ensures r.None? <==> forall x :: 0 <= x < n ==> x in taken
    ensures r.Some? ==> r.value < n && r.value !in taken
    ensures r.Some? ==> forall x :: 0 <= x < n && x !in taken ==> keys[x] <= keys[r.value]
    ensures r.Some? ==> forall x :: 0 <= x < r.value && x !in taken ==> keys[x] < keys[r.value]
  {
    if n == 0 then None
    else
      var b := BestBelow(keys, taken, n - 1);
      if n - 1 in taken then b
      else if b.None? || keys[b.value] < keys[n - 1] then Some(n - 1)
      else b
  }

  /** A sequence of distinct positions below `n` has at most `n` entries. */
  lemma {:induction false} DistinctBelowBound(s: seq<nat>, n: nat)
    requires NoDuplicates(s) && forall i :: 0 <= i < |s| ==> s[i] < n
    ensures |s| <= n
    decreases |s|
  {
    if |s| > 0 {
      var m := s[|s| - 1];
      var t := s[..|s| - 1];
      assert forall i :: 0 <= i < |t| ==> t[i] == s[i] && t[i] != m;
      var u := seq(|t|, i requires 0 <= i < |t| => if t[i] == n - 1 then m else t[i]);
      DistinctBelowBound(u, n - 1);
    }
  }

  /** A sequence that contains every position below `n` has at least `n` entries. */
  lemma {:induction false} CoverBound(s: seq<nat>, n: nat)
    requires forall x :: 0 <= x < n ==> x in s
    ensures |s| >= n
  {
    if n > 0 {
      var j := IndexOf(s, n - 1);
      var t := s[..j] + s[j + 1..];
      forall x | 0 <= x < n - 1
        ensures x in t
      {
        var i := IndexOf(s, x);
        if i < j { assert t[i] == x; } else { assert t[i - 1] == x; }
      }
      CoverBound(t, n - 1);
    }
  }

  /** The positions of the `k` largest keys, largest first. `max_by(k)` fixes
      no order among equal keys; this model breaks ties by taking the earlier
      position first, its own choice. */
  function TopIndices(keys: seq<real>, k: nat): (r: seq<nat>)
    ensures |r| == if k < |keys| then k else |keys|
    ensures NoDuplicates(r) && forall i :: 0 <= i < |r| ==> r[i] < |keys|
    ensures forall i, j :: 0 <= i < j < |r| ==> keys[r[j]] <= keys[r[i]]
    ensures forall i, x :: 0 <= i < |r| && 0 <= x < |keys| && x !in r ==> keys[x] <= keys[r[i]]
    ensures forall i, x :: 0 <= i < |r| && 0 <= x < r[i] && x !in r[..i] ==> keys[x] < keys[r[i]]
  {
    if k == 0 then []
    else
      var prev := TopIndices(keys, k - 1);
      match BestBelow(keys, prev, |keys|)
      case None =>
        CoverBound(prev, |keys|);
        prev
      case Some(x) =>
        TopIndicesStep(keys, prev, x);
        TopIndicesTieStep(keys, prev, x);
        prev + [x]
  }

  /** Appending the best position not yet taken keeps the order and the
      dominance of `TopIndices`. */
  lemma TopIndicesStep(keys: seq<real>, prev: seq<nat>, x: nat)
    requires NoDuplicates(prev) && forall i :: 0 <= i < |prev| ==> prev[i] < |keys|
    requires forall i, j :: 0 <= i < j < |prev| ==> keys[prev[j]] <= keys[prev[i]]
    requires forall i, y :: 0 <= i < |prev| && 0 <= y < |keys| && y !in prev ==> keys[y] <= keys[prev[i]]
    requires x < |keys| && x !in prev
    requires forall y :: 0 <= y < |keys| && y !in prev ==> keys[y] <= keys[x]
    ensures |prev| < |keys|
    ensures NoDuplicates(prev + [x]) && forall i :: 0 <= i < |prev + [x]| ==> (prev + [x])[i] < |keys|
    ensures forall i, j :: 0 <= i < j < |prev + [x]| ==> keys[(prev + [x])[j]] <= keys[(prev + [x])[i]]
    ensures forall i, y :: 0 <= i < |prev + [x]| && 0 <= y < |keys| && y !in prev + [x] ==> keys[y] <= keys[(prev + [x])[i]]
  {
    var r := prev + [x];
    assert forall i :: 0 <= i < |prev| ==> r[i] == prev[i];
    DistinctBelowBound(r, |keys|);
  }

  /** Appending the first best position not yet taken keeps the tie rule of
      `TopIndices`. */
  lemma TopIndicesTieStep(keys: seq<real>, prev: seq<nat>, x: nat)
    requires x < |keys| && forall i :: 0 <= i < |prev| ==> prev[i] < |keys|
    requires forall i, y :: 0 <= i < |prev| && 0 <= y < prev[i] && y !in prev[..i] ==> keys[y] < keys[prev[i]]
    requires forall y :: 0 <= y < x && y !in prev ==> keys[y] < keys[x]
    ensures forall i, y :: 0 <= i < |prev + [x]| && 0 <= y < (prev + [x])[i] && y !in (prev + [x])[..i] ==> keys[y] < keys[(prev + [x])[i]]
  {
    var r := prev + [x];
    assert forall i :: 0 <= i < |prev| ==> r[i] == prev[i] && r[..i] == prev[..i];
    assert r[..|prev|] == prev;
  }

  /** The entries of `pool` at the positions of the `size` largest draws. */
  function PickTop(pool: seq<int>, size: nat, key: nat -> real): (r: seq<int>)
    ensures |r| == if size < |pool| then size else |pool|
    ensures forall i :: 0 <= i < |r| ==> r[i] in pool
  {
    var picked := TopIndices(seq(|pool|, (i: nat) => key(i)), size);
    seq(|picked|, i requires 0 <= i < |picked| => pool[picked[i]])
  }

  /** From a pool without repeats `PickTop` picks no value twice. */
  lemma PickTopDistinct(pool: seq<int>, size: nat, key: nat -> real)
    requires NoDuplicates(pool)
    ensures NoDuplicates(PickTop(pool, size, key))
  {
    var picked := TopIndices(seq(|pool|, (i: nat) => key(i)), size);
    var r := PickTop(pool, size, key);
    forall i, j | 0 <= i < j < |r|
      ensures r[i] != r[j]
    {
      assert picked[i] != picked[j];
    }
  }

  /** `random_choice(a, size:, p:)`. The random draws are a parameter:
      `key(i)` is the draw for candidate `i` (`rand ** (1.0 / weight)` when
      weights are given, a uniform draw otherwise), and the candidates with
      the largest draws are picked. With weights the candidates are the
      distinct values of the array (the keys of `array.zip(p).to_h`);
      without them every position of the array is a candidate. */
  function RandomChoice(a: Population, size: int, p: Option<seq<real>>, key: nat -> real): (r: Result<seq<int>, Failure>)
    ensures r == Err(RuntimeError) <==> p.Some? && |p.value| != |Candidates(a)|
    ensures r == Err(ArgumentError) <==> !(p.Some? && |p.value| != |Candidates(a)|) && size < 0
    ensures r.Ok? <==> !(p.Some? && |p.value| != |Candidates(a)|) && size >= 0
    ensures r.Ok? ==> forall i :: 0 <= i < |r.value| ==> r.value[i] in Candidates(a)
    ensures r.Ok? && p.Some? ==> NoDuplicates(r.value)
    ensures r.Ok? ==> |r.value| == var pool := if p.Some? then Distinct(Candidates(a)) else Candidates(a);
      if size < |pool| then size else |pool|
  {
    var elems := Candidates(a);
    if p.Some? && |p.value| != |elems| then Err(RuntimeError)
    else if size < 0 then Err(ArgumentError)
    else if p.Some? then PickTopDistinct(Distinct(elems), size, key); Ok(PickTop(Distinct(elems), size, key))
    else Ok(PickTop(elems, size, key))
  }

  /** `PickTop` takes the entries at distinct positions of the pool whose
      draws are at least as large as every draw left out. */
  lemma PickTopSelects(pool: seq<int>, size: nat, key: nat -> real)
    ensures exists picked: seq<nat> ::
      && |picked| == |PickTop(pool, size, key)|
      && NoDuplicates(picked)
      && (forall i :: 0 <= i < |picked| ==> picked[i] < |pool| && PickTop(pool, size, key)[i] == pool[picked[i]])
      && (forall i, x :: 0 <= i < |picked| && 0 <= x < |pool| && x !in picked ==> key(x) <= key(picked[i]))
  {
    var keys := seq(|pool|, (i: nat) => key(i));
    var picked := TopIndices(keys, size);
    assert forall x :: 0 <= x < |pool| ==> keys[x] == key(x);
    assert forall i :: 0 <= i < |picked| ==> PickTop(pool, size, key)[i] == pool[picked[i]];
  }

  /** Every candidate left out drew a key no larger than any candidate picked,
      and no position of the pool is picked twice. */
  lemma RandomChoiceSelects(a: Population, size: int, p: Option<seq<real>>, key: nat -> real)
    requires RandomChoice(a, size, p, key).Ok?
    ensures var pool := if p.Some? then Distinct(Candidates(a)) else Candidates(a);
      exists picked: seq<nat> ::
        && |picked| == |RandomChoice(a, size, p, key).value|
        && NoDuplicates(picked)
        && (forall i :: 0 <= i < |picked| ==> picked[i] < |pool| && RandomChoice(a, size, p, key).value[i] == pool[picked[i]])
        && (forall i, x :: 0 <= i < |picked| && 0 <= x < |pool| && x !in picked ==> key(x) <= key(picked[i]))
  {
    var pool := if p.Some? then Distinct(Candidates(a)) else Candidates(a);
    assert RandomChoice(a, size, p, key).value == PickTop(pool, size, key);
    PickTopSelects(pool, size, key);
  }
}
