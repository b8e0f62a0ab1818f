/** `create_co_matrix` of common/util.rb: windowed co-occurrence counts of
    a corpus of word ids in a `vocab_size x vocab_size` matrix. */
module CoMatrix {
  import opened Outcomes
  import opened Sequences
  import Functions

  /** The increment the left neighbour at distance `i` of position `idx`
      makes to cell `(a, b)`: 1 when that neighbour exists, the word at
      `idx` has column `a` and the neighbour column `b`. */
  function Left(c: seq<int>, v: nat, idx: nat, i: nat, a: nat, b: nat): nat {
    if idx < |c| && i <= idx
       && Functions.NormIndex(v, c[idx]) == Some(a) && Functions.NormIndex(v, c[idx - i]) == Some(b)
    then 1 else 0
  }

  /** The same for the right neighbour at distance `i`. */
  function Right(c: seq<int>, v: nat, idx: nat, i: nat, a: nat, b: nat): nat {
    if idx + i < |c|
       && Functions.NormIndex(v, c[idx]) == Some(a) && Functions.NormIndex(v, c[idx + i]) == Some(b)
    then 1 else 0
  }

  /** Increments to `(a, b)` made at position `idx` for distances `1 .. k`. */
  function AtPos(c: seq<int>, v: nat, idx: nat, k: nat, a: nat, b: nat): nat {
    if k == 0 then 0
    else AtPos(c, v, idx, k - 1, a, b) + Left(c, v, idx, k, a, b) + Right(c, v, idx, k, a, b)
  }

  /** Increments to `(a, b)` made at positions `0 .. n - 1` with window `w`. */
  function Count(c: seq<int>, v: nat, n: nat, w: nat, a: nat, b: nat): nat {
    if n == 0 then 0 else Count(c, v, n - 1, w, a, b) + AtPos(c, v, n - 1, w, a, b)
  }

  /** Cell `(a, b)` of the co-occurrence matrix of corpus `c`. */
  function Co(c: seq<int>, v: nat, w: nat, a: nat, b: nat): nat {
    Count(c, v, |c|, w, a, b)
  }

  predicate AllIn(v: nat, c: seq<int>) {
    forall k :: 0 <= k < |c| ==> Functions.NormIndex(v, c[k]).Some?
  }

  /** The window `(1..window_size)` ranges over: empty for a window below 1. */
  function Offsets(window: int): nat {
    if window < 1 then 0 else window
  }

  /** `create_co_matrix(corpus, vocab_size, window_size:)`. Every ordered
      pair of positions at distance `1 .. window_size` adds 1 to the cell
      `[id at the first, id at the second]`; ids index the matrix as Numo
      indices (negative ones count from the end), and an id outside
      `-vocab_size ... vocab_size` raises IndexError as soon as an
      increment touches it, which happens exactly when the window is at
      least 1 and the corpus has two words. The matrix is symmetric. */
  method CreateCoMatrix(corpus: seq<int>, vocabSize: nat, window: int) returns (r: Result<array2<nat>, Failure>)
    ensures r.Err? <==> window >= 1 && |corpus| >= 2 && !AllIn(vocabSize, corpus)
    ensures r.Err? ==> r.error == IndexError
    ensures r.Ok? ==> fresh(r.value) && r.value.Length0 == vocabSize && r.value.Length1 == vocabSize
    ensures r.Ok? ==> forall a, b :: 0 <= a < vocabSize && 0 <= b < vocabSize ==>
      r.value[a, b] == Co(corpus, vocabSize, Offsets(window), a, b)
    ensures r.Ok? ==> forall a, b :: 0 <= a < vocabSize && 0 <= b < vocabSize ==> r.value[a, b] == r.value[b, a]
  {
    var corpusSize := |corpus|;
    var m := new nat[vocabSize, vocabSize]((a, b) => 0);
    var idx := 0;
    while idx < corpusSize
      invariant idx <= corpusSize
      invariant window >= 1 && corpusSize >= 2 ==> AllIn(vocabSize, corpus[..idx])
      invariant forall a, b :: 0 <= a < vocabSize && 0 <= b < vocabSize ==>
        m[a, b] == Count(corpus, vocabSize, idx, Offsets(window), a, b)
    {
      var ok := CountAround(m, corpus, vocabSize, window, idx);
      if !ok {
        return Err(IndexError);
      }
      assert corpus[..idx + 1] == corpus[..idx] + [corpus[idx]];
      idx := idx + 1;
    }
    assert corpus[..idx] == corpus;
    forall a, b | 0 <= a < vocabSize && 0 <= b < vocabSize
      ensures m[a, b] == m[b, a]
    {
      CoSymmetric(corpus, vocabSize, Offsets(window), a, b);
    }
    return Ok(m);
  }

  /** The block run for position `idx`: one increment per neighbour at
      distance `1 .. window`; `false` when an id is not a valid index, which
      Numo reports as IndexError. */
  method CountAround(m: array2<nat>, corpus: seq<int>, vocabSize: nat, window: int, idx: nat) returns (ok: bool)
    requires idx < |corpus| && m.Length0 == vocabSize && m.Length1 == vocabSize
    requires window >= 1 && |corpus| >= 2 ==> AllIn(vocabSize, corpus[..idx])
    modifies m
    ensures !ok ==> window >= 1 && |corpus| >= 2 && !AllIn(vocabSize, corpus)
    ensures ok && window >= 1 && |corpus| >= 2 ==> Functions.NormIndex(vocabSize, corpus[idx]).Some?
    ensures ok ==> forall a, b :: 0 <= a < vocabSize && 0 <= b < vocabSize ==>
      m[a, b] == old(m[a, b]) + AtPos(corpus, vocabSize, idx, Offsets(window), a, b)
  {
    var i := 1;
    assert forall a, b :: AtPos(corpus, vocabSize, idx, 0, a, b) == 0;
    while i <= window
      invariant 1 <= i <= Offsets(window) + 1
      invariant i > 1 && |corpus| >= 2 ==> Functions.NormIndex(vocabSize, corpus[idx]).Some?
      invariant forall a, b :: 0 <= a < vocabSize && 0 <= b < vocabSize ==>
        m[a, b] == old(m[a, b]) + AtPos(corpus, vocabSize, idx, i - 1, a, b)
    {
      var leftIdx := idx - i;
      var rightIdx := idx + i;
      if leftIdx >= 0 {
        var wordId := Functions.NormIndex(vocabSize, corpus[idx]);
        var leftWordId := Functions.NormIndex(vocabSize, corpus[leftIdx]);
        if wordId.None? || leftWordId.None? {
          assert corpus[..idx][leftIdx] == corpus[leftIdx];
          return false;
        }
        m[wordId.value, leftWordId.value] := m[wordId.value, leftWordId.value] + 1;
      }
      assert forall a, b :: 0 <= a < vocabSize && 0 <= b < vocabSize ==>
        m[a, b] == old(m[a, b]) + AtPos(corpus, vocabSize, idx, i - 1, a, b)
                   + Left(corpus, vocabSize, idx, i, a, b);
      if rightIdx < |corpus| {
        var wordId := Functions.NormIndex(vocabSize, corpus[idx]);
        var rightWordId := Functions.NormIndex(vocabSize, corpus[rightIdx]);
        if wordId.None? || rightWordId.None? {
          return false;
        }
        m[wordId.value, rightWordId.value] := m[wordId.value, rightWordId.value] + 1;
      }
      i := i + 1;
    }
    return true;
  }

  // ---------------------------------------------------------------------
  // Symmetry

  /** All increments of one distance `i` over positions `0 .. n - 1`. */
  function LeftTotal(c: seq<int>, v: nat, n: nat, i: nat, a: nat, b: nat): nat {
    if n == 0 then 0 else LeftTotal(c, v, n - 1, i, a, b) + Left(c, v, n - 1, i, a, b)
  }

  function RightTotal(c: seq<int>, v: nat, n: nat, i: nat, a: nat, b: nat): nat {
    if n == 0 then 0 else RightTotal(c, v, n - 1, i, a, b) + Right(c, v, n - 1, i, a, b)
  }

  /** The increments of positions `0 .. n - 1`, grouped by distance. */
  function ByDistance(c: seq<int>, v: nat, n: nat, k: nat, a: nat, b: nat): nat {
    if k == 0 then 0
    else ByDistance(c, v, n, k - 1, a, b) + LeftTotal(c, v, n, k, a, b) + RightTotal(c, v, n, k, a, b)
  }

  lemma {:induction false} ByDistanceStep(c: seq<int>, v: nat, n: nat, k: nat, a: nat, b: nat)
    requires n > 0
    ensures ByDistance(c, v, n, k, a, b) == ByDistance(c, v, n - 1, k, a, b) + AtPos(c, v, n - 1, k, a, b)
  {
    if k > 0 {
      ByDistanceStep(c, v, n, k - 1, a, b);
    }
  }

  /** Counting position by position (the loop's order) and distance by
      distance give the same cell. */
  lemma {:induction false} CountByDistance(c: seq<int>, v: nat, n: nat, w: nat, a: nat, b: nat)
    ensures Count(c, v, n, w, a, b) == ByDistance(c, v, n, w, a, b)
  {
    if n == 0 {
      ByDistanceZero(c, v, w, a, b);
    } else {
      CountByDistance(c, v, n - 1, w, a, b);
      ByDistanceStep(c, v, n, w, a, b);
    }
  }

  lemma {:induction false} ByDistanceZero(c: seq<int>, v: nat, k: nat, a: nat, b: nat)
    ensures ByDistance(c, v, 0, k, a, b) == 0
  {
    if k > 0 {
      ByDistanceZero(c, v, k - 1, a, b);
    }
  }

  /** A left increment at position `idx` is the right increment, with the
      cell transposed, at position `idx - i`. */
  lemma {:induction false} LeftIsShiftedRight(c: seq<int>, v: nat, n: nat, i: nat, a: nat, b: nat)
    requires n <= |c|
    ensures LeftTotal(c, v, n, i, a, b) == RightTotal(c, v, if n < i then 0 else n - i, i, b, a)
  {
    if n > 0 {
      LeftIsShiftedRight(c, v, n - 1, i, a, b);
      if n - 1 >= i {
        assert Left(c, v, n - 1, i, a, b) == Right(c, v, n - 1 - i, i, b, a);
      }
    }
  }

  /** Right increments from positions at or beyond `|c| - i` are all 0. */
  lemma {:induction false} RightTail(c: seq<int>, v: nat, n: nat, i: nat, a: nat, b: nat)
    requires n <= |c|
    ensures RightTotal(c, v, n, i, a, b) == RightTotal(c, v, if n + i <= |c| then n else if |c| < i then 0 else |c| - i, i, a, b)
  {
    if n > 0 && n + i > |c| {
      RightTail(c, v, n - 1, i, a, b);
    }
  }

  lemma LeftRightSwap(c: seq<int>, v: nat, i: nat, a: nat, b: nat)
    ensures LeftTotal(c, v, |c|, i, a, b) == RightTotal(c, v, |c|, i, b, a)
  {
    LeftIsShiftedRight(c, v, |c|, i, a, b);
    RightTail(c, v, |c|, i, b, a);
  }

  lemma {:induction false} ByDistanceSymmetric(c: seq<int>, v: nat, k: nat, a: nat, b: nat)
    ensures ByDistance(c, v, |c|, k, a, b) == ByDistance(c, v, |c|, k, b, a)
  {
    if k > 0 {
      ByDistanceSymmetric(c, v, k - 1, a, b);
      LeftRightSwap(c, v, k, a, b);
      LeftRightSwap(c, v, k, b, a);
    }
  }

  /** The co-occurrence matrix is symmetric: every right-neighbour increment
      of `[a, b]` is matched by a left-neighbour increment of `[b, a]`. */
  lemma CoSymmetric(c: seq<int>, v: nat, w: nat, a: nat, b: nat)
    ensures Co(c, v, w, a, b) == Co(c, v, w, b, a)
  {
    CountByDistance(c, v, |c|, w, a, b);
    CountByDistance(c, v, |c|, w, b, a);
    ByDistanceSymmetric(c, v, w, a, b);
  }

  // ---------------------------------------------------------------------
  // Total count

  /** Number of ordered pairs of positions at distances `1 .. k` in a corpus
      of `len` words: `2 * (Pairs(len, k))`, one `max(0, len - i)` per side
      and distance. */
  function Pairs(len: nat, k: nat): nat {
    if k == 0 then 0 else Pairs(len, k - 1) + (if len <= k then 0 else len - k)
  }

  lemma LeftCells(c: seq<int>, v: nat, idx: nat, i: nat, f: (nat, nat) -> nat)
    requires AllIn(v, c)
    requires forall a, b :: 0 <= a < v && 0 <= b < v ==> f(a, b) == Left(c, v, idx, i, a, b)
    ensures DSum(v, v, f) == if idx < |c| && i <= idx then 1 else 0
  {
    if idx < |c| && i <= idx {
      var x := Functions.NormIndex(v, c[idx]).value;
      var y := Functions.NormIndex(v, c[idx - i]).value;
      DSumIndicator(v, v, f, x, y);
    } else {
      DSumZero(v, v, f);
    }
  }

  lemma RightCells(c: seq<int>, v: nat, idx: nat, i: nat, f: (nat, nat) -> nat)
    requires AllIn(v, c)
    requires forall a, b :: 0 <= a < v && 0 <= b < v ==> f(a, b) == Right(c, v, idx, i, a, b)
    ensures DSum(v, v, f) == if idx + i < |c| then 1 else 0
  {
    if idx + i < |c| {
      var x := Functions.NormIndex(v, c[idx]).value;
      var y := Functions.NormIndex(v, c[idx + i]).value;
      DSumIndicator(v, v, f, x, y);
    } else {
      DSumZero(v, v, f);
    }
  }

  /** Over the whole matrix, distance `i` contributes one left increment per
      position `i .. n - 1`. */
  lemma {:induction false} LeftTotalCells(c: seq<int>, v: nat, n: nat, i: nat, f: (nat, nat) -> nat)
    requires AllIn(v, c) && n <= |c|
    requires forall a, b :: 0 <= a < v && 0 <= b < v ==> f(a, b) == LeftTotal(c, v, n, i, a, b)
    ensures DSum(v, v, f) == if n <= i then 0 else n - i
  {
    if n == 0 {
      DSumZero(v, v, f);
    } else {
      var before := (a: nat, b: nat) => LeftTotal(c, v, n - 1, i, a, b);
      var last := (a: nat, b: nat) => Left(c, v, n - 1, i, a, b);
      assert DSum(v, v, f) == DSum(v, v, before) + DSum(v, v, last) by {
        DSumLinear(v, v, before, last, f);
      }
      assert DSum(v, v, before) == if n - 1 <= i then 0 else n - 1 - i by {
        LeftTotalCells(c, v, n - 1, i, before);
      }
      assert DSum(v, v, last) == if i <= n - 1 then 1 else 0 by {
        LeftCells(c, v, n - 1, i, last);
      }
    }
  }

  /** ... and one right increment per position whose partner `i` further on
      is still in the corpus. */
  lemma {:induction false} RightTotalCells(c: seq<int>, v: nat, n: nat, i: nat, f: (nat, nat) -> nat)
    requires AllIn(v, c) && n <= |c|
    requires forall a, b :: 0 <= a < v && 0 <= b < v ==> f(a, b) == RightTotal(c, v, n, i, a, b)
    ensures DSum(v, v, f) == if n + i <= |c| then n else if |c| <= i then 0 else |c| - i
  {
    if n == 0 {
      DSumZero(v, v, f);
    } else {
      var before := (a: nat, b: nat) => RightTotal(c, v, n - 1, i, a, b);
      var last := (a: nat, b: nat) => Right(c, v, n - 1, i, a, b);
      assert DSum(v, v, f) == DSum(v, v, before) + DSum(v, v, last) by {
        DSumLinear(v, v, before, last, f);
      }
      assert DSum(v, v, before) == if n - 1 + i <= |c| then n - 1 else if |c| <= i then 0 else |c| - i by {
        RightTotalCells(c, v, n - 1, i, before);
      }
      assert DSum(v, v, last) == if n - 1 + i < |c| then 1 else 0 by {
        RightCells(c, v, n - 1, i, last);
      }
    }
  }

  lemma {:induction false} ByDistanceCells(c: seq<int>, v: nat, k: nat, f: (nat, nat) -> nat)
    requires AllIn(v, c)
    requires forall a, b :: 0 <= a < v && 0 <= b < v ==> f(a, b) == ByDistance(c, v, |c|, k, a, b)
    ensures DSum(v, v, f) == 2 * Pairs(|c|, k)
  {
    if k == 0 {
      DSumZero(v, v, f);
    } else {
      var before := (a: nat, b: nat) => ByDistance(c, v, |c|, k - 1, a, b);
      var left := (a: nat, b: nat) => LeftTotal(c, v, |c|, k, a, b);
      var right := (a: nat, b: nat) => RightTotal(c, v, |c|, k, a, b);
      var sides := (a: nat, b: nat) => LeftTotal(c, v, |c|, k, a, b) + RightTotal(c, v, |c|, k, a, b);
      DSumLinear(v, v, before, sides, f);
      DSumLinear(v, v, left, right, sides);
      ByDistanceCells(c, v, k - 1, before);
      LeftTotalCells(c, v, |c|, k, left);
      RightTotalCells(c, v, |c|, k, right);
    }
  }

  /** With every id in range, the matrix holds `2 * sum over i in 1 .. w of
      max(0, L - i)` increments in all: each position pairs with every
      neighbour within the window that exists. */
  lemma CoTotal(c: seq<int>, v: nat, w: nat, f: (nat, nat) -> nat)
    requires AllIn(v, c)
    requires forall a, b :: 0 <= a < v && 0 <= b < v ==> f(a, b) == Co(c, v, w, a, b)
    ensures DSum(v, v, f) == 2 * Pairs(|c|, w)
  {
    forall a, b | 0 <= a < v && 0 <= b < v
      ensures f(a, b) == ByDistance(c, v, |c|, w, a, b)
    {
      CountByDistance(c, v, |c|, w, a, b);
    }
    ByDistanceCells(c, v, w, f);
  }
}
