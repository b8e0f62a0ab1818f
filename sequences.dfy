/** Sequence and summation helpers shared by the modules of the model:
    first-occurrence de-duplication (the key order of a Ruby Hash built
    by insertion), order-preserving deletion (subsequences) and finite
    sums used for counting. */
module Sequences {

  /** The integers `0 ... n`, as Ruby's `(0...n).to_a`. */
  function Range(n: nat): (r: seq<nat>)
    ensures |r| == n && forall k :: 0 <= k < n ==> r[k] == k
  {
    seq(n, k => k)
  }

  ghost predicate NoDuplicates<T>(s: seq<T>) {
    forall i, j :: 0 <= i < j < |s| ==> s[i] != s[j]
  }

  /** The distinct elements of `s` in the order of their first occurrence:
      the keys of a Ruby Hash filled from `s` front to back. */
  function Distinct<T(==)>(s: seq<T>): (r: seq<T>)
    ensures NoDuplicates(r)
    ensures forall i :: 0 <= i < |r| ==> r[i] in s
    ensures forall i :: 0 <= i < |s| ==> s[i] in r
    ensures |r| <= |s|
    decreases |s|
  {
    if s == [] then []
    else
      var r := Distinct(s[..|s| - 1]);
      if s[|s| - 1] in r then r else r + [s[|s| - 1]]
  }

  /** Extending the input by one element extends `Distinct` by that element
      exactly when it is new. */
  lemma DistinctSnoc<T>(s: seq<T>, x: T)
    ensures Distinct(s + [x]) == if x in s then Distinct(s) else Distinct(s) + [x]
  {
    assert (s + [x])[..|s|] == s;
  }

  /** One more element of input extends `Distinct` or leaves it alone. */
  lemma DistinctPrefixStep<T>(s: seq<T>, k: nat)
    requires k < |s|
    ensures |Distinct(s[..k])| <= |Distinct(s[..k + 1])|
    ensures Distinct(s[..k]) == Distinct(s[..k + 1])[..|Distinct(s[..k])|]
  {
    var a, b := Distinct(s[..k]), Distinct(s[..k + 1]);
    assert s[..k + 1] == s[..k] + [s[k]];
    DistinctSnoc(s[..k], s[k]);
    if b != a {
      assert b == a + [s[k]];
    }
  }

  /** `Distinct` of a prefix is a prefix of `Distinct`: an element keeps the
      position it was given when first seen. */
  lemma {:induction false} DistinctPrefix<T>(s: seq<T>, k: nat)
    requires k <= |s|
    ensures |Distinct(s[..k])| <= |Distinct(s)|
    ensures Distinct(s[..k]) == Distinct(s)[..|Distinct(s[..k])|]
    decreases |s| - k
  {
    var a, d := Distinct(s[..k]), Distinct(s);
    if k < |s| {
      DistinctPrefix(s, k + 1);
      DistinctPrefixStep(s, k);
      var b := Distinct(s[..k + 1]);
      assert d[..|b|][..|a|] == d[..|a|];
    } else {
      assert s[..k] == s;
      assert d[..|d|] == d;
    }
  }

  /** An element met for the first time at position `k` lands in `Distinct`
      right after the distinct elements of the prefix before it. */
  lemma DistinctNewAt<T>(s: seq<T>, k: nat)
    requires k < |s| && s[k] !in s[..k]
    ensures |Distinct(s[..k])| < |Distinct(s)|
    ensures Distinct(s)[|Distinct(s[..k])|] == s[k]
  {
    var before := Distinct(s[..k]);
    assert s[..k + 1] == s[..k] + [s[k]];
    DistinctSnoc(s[..k], s[k]);
    var after := Distinct(s[..k + 1]);
    assert after[|before|] == s[k];
    DistinctPrefix(s, k + 1);
  }

  /** Position of `x` in `s`, the first when `x` occurs more than once. */
  function IndexOf<T(==)>(s: seq<T>, x: T): (k: nat)
    requires x in s
    ensures k < |s| && s[k] == x
    ensures forall j :: 0 <= j < k ==> s[j] != x
  {
    if s[0] == x then 0 else 1 + IndexOf(s[1..], x)
  }

  /** In a sequence without repetitions the position of an element is unique. */
  lemma IndexOfUnique<T>(s: seq<T>, k: nat)
    requires NoDuplicates(s) && k < |s|
    ensures IndexOf(s, s[k]) == k
  {
  }

  /** `a` is `b` with some elements removed; the rest keep their order. */
  predicate Subseq<T(==)>(a: seq<T>, b: seq<T>)
    decreases |b|
  {
    a == [] || (b != [] && ((a[0] == b[0] && Subseq(a[1..], b[1..])) || Subseq(a, b[1..])))
  }

  lemma {:induction false} SubseqRefl<T>(a: seq<T>)
    ensures Subseq(a, a)
    decreases |a|
  {
    if a != [] {
      SubseqRefl(a[1..]);
    }
  }

  /** Deleting the element at `j` (Ruby's `delete_at(j)`) leaves a subsequence. */
  lemma {:induction false} DeleteAtSubseq<T>(b: seq<T>, j: nat)
    requires j < |b|
    ensures Subseq(b[..j] + b[j + 1..], b)
    decreases j
  {
    var a := b[..j] + b[j + 1..];
    if j == 0 {
      assert a == b[1..];
      SubseqRefl(b[1..]);
    } else {
      DeleteAtSubseq(b[1..], j - 1);
      assert a[0] == b[0];
      assert a[1..] == b[1..][..j - 1] + b[1..][j..];
    }
  }

  lemma {:induction false} SubseqTrans<T>(a: seq<T>, b: seq<T>, c: seq<T>)
    requires Subseq(a, b) && Subseq(b, c)
    ensures Subseq(a, c)
    decreases |c|
  {
    if a != [] {
      assert b != [] && c != [];
      if b[0] == c[0] && Subseq(b[1..], c[1..]) {
        if a[0] == b[0] && Subseq(a[1..], b[1..]) {
          SubseqTrans(a[1..], b[1..], c[1..]);
        } else {
          SubseqTrans(a, b[1..], c[1..]);
        }
      } else {
        SubseqTrans(a, b, c[1..]);
      }
    }
  }

  /** A subsequence is never longer than the sequence it is taken from. */
  lemma {:induction false} SubseqLength<T>(a: seq<T>, b: seq<T>)
    requires Subseq(a, b)
    ensures |a| <= |b|
    decreases |b|
  {
    if a != [] {
      if a[0] == b[0] && Subseq(a[1..], b[1..]) {
        SubseqLength(a[1..], b[1..]);
      } else {
        SubseqLength(a, b[1..]);
      }
    }
  }

  /** Every element of a subsequence comes from the sequence. */
  lemma {:induction false} SubseqMembers<T>(a: seq<T>, b: seq<T>, x: T)
    requires Subseq(a, b) && x in a
    ensures x in b
    decreases |b|
  {
    if a[0] == b[0] && Subseq(a[1..], b[1..]) {
      if x != a[0] {
        SubseqMembers(a[1..], b[1..], x);
      }
    } else {
      SubseqMembers(a, b[1..], x);
    }
  }

  // ---------------------------------------------------------------------
  // Finite sums  Sum(n, f) = f(0) + ... + f(n - 1)

  function Sum(n: nat, f: nat -> nat): nat
  {
    if n == 0 then 0 else Sum(n - 1, f) + f(n - 1)
  }

  lemma {:induction false} SumExt(n: nat, f: nat -> nat, g: nat -> nat)
    requires forall k :: 0 <= k < n ==> f(k) == g(k)
    ensures Sum(n, f) == Sum(n, g)
  {
    if n > 0 {
      SumExt(n - 1, f, g);
    }
  }

  lemma {:induction false} SumZero(n: nat, f: nat -> nat)
    requires forall k :: 0 <= k < n ==> f(k) == 0
    ensures Sum(n, f) == 0
  {
    if n > 0 {
      SumZero(n - 1, f);
    }
  }

  lemma {:induction false} SumAdd(n: nat, f: nat -> nat, g: nat -> nat, h: nat -> nat)
    requires forall k :: 0 <= k < n ==> h(k) == f(k) + g(k)
    ensures Sum(n, h) == Sum(n, f) + Sum(n, g)
  {
    if n > 0 {
      SumAdd(n - 1, f, g, h);
    }
  }

  /** A sum is at least any one of its terms. */
  lemma {:induction false} SumAtLeastTerm(n: nat, f: nat -> nat, k: nat)
    requires k < n
    ensures f(k) <= Sum(n, f)
  {
    if k < n - 1 {
      SumAtLeastTerm(n - 1, f, k);
    }
  }

  /** A term that is selected by an indicator contributes once:
      the sum over `a < n` of `[x == a] * g(a)` is `g(x)` when `x < n`. */
  lemma {:induction false} SumIndicator(n: nat, x: nat, g: nat -> nat, f: nat -> nat)
    requires forall a :: 0 <= a < n ==> f(a) == if a == x then g(a) else 0
    ensures Sum(n, f) == if x < n then g(x) else 0
  {
    if n > 0 {
      SumIndicator(n - 1, x, g, f);
    }
  }

  /** The two orders of a double sum agree: `rows(x)` is the sum of row `x`
      of `f` and `cols(y)` the sum of its column `y`. */
  lemma {:induction false} SumSwap(n: nat, m: nat, f: (nat, nat) -> nat, rows: nat -> nat, cols: nat -> nat)
    requires forall x :: 0 <= x < n ==> rows(x) == Sum(m, (y: nat) => f(x, y))
    requires forall y :: 0 <= y < m ==> cols(y) == Sum(n, (x: nat) => f(x, y))
    ensures Sum(n, rows) == Sum(m, cols)
  {
    if n == 0 {
      SumZero(m, cols);
    } else {
      var before: nat -> nat := (y: nat) => Sum(n - 1, (x: nat) => f(x, y));
      var last: nat -> nat := (y: nat) => f(n - 1, y);
      SumSwap(n - 1, m, f, rows, before);
      SumAdd(m, before, last, cols);
    }
  }

  /** Shifting the summation index: terms before `i` are zero, the others
      are `g` of the shifted index. */
  lemma {:induction false} SumShift(n: nat, i: nat, g: nat -> nat, f: nat -> nat)
    requires forall p :: 0 <= p < n + i ==> f(p) == if p >= i then g(p - i) else 0
    ensures Sum(n + i, f) == Sum(n, g)
  {
    if n == 0 {
      SumZero(i, f);
    } else {
      SumShift(n - 1, i, g, f);
    }
  }

  /** Cutting a sum off at `m`: terms at or beyond `m` are zero. */
  lemma {:induction false} SumPrefix(n: nat, m: nat, g: nat -> nat, f: nat -> nat)
    requires forall q :: 0 <= q < n ==> f(q) == if q < m then g(q) else 0
    ensures Sum(n, f) == Sum(if n < m then n else m, g)
  {
    if n > 0 {
      SumPrefix(n - 1, m, g, f);
    }
  }

  // ---------------------------------------------------------------------
  // Double sums over an n x m grid of cells

  /** f(a, 0) + ... + f(a, m - 1). */
  function RowSum(m: nat, f: (nat, nat) -> nat, a: nat): nat {
    if m == 0 then 0 else RowSum(m - 1, f, a) + f(a, m - 1)
  }

  /** The sum of f over all cells (a, b) with a < n and b < m. */
  function DSum(n: nat, m: nat, f: (nat, nat) -> nat): nat {
    if n == 0 then 0 else DSum(n - 1, m, f) + RowSum(m, f, n - 1)
  }

  lemma {:induction false} RowSumLinear(m: nat, f: (nat, nat) -> nat, g: (nat, nat) -> nat, h: (nat, nat) -> nat, a: nat)
    requires forall b :: 0 <= b < m ==> h(a, b) == f(a, b) + g(a, b)
    ensures RowSum(m, h, a) == RowSum(m, f, a) + RowSum(m, g, a)
  {
    if m > 0 {
      RowSumLinear(m - 1, f, g, h, a);
    }
  }

  /** A double sum of a cellwise sum is the sum of the double sums. */
  lemma {:induction false} DSumLinear(n: nat, m: nat, f: (nat, nat) -> nat, g: (nat, nat) -> nat, h: (nat, nat) -> nat)
    requires forall a, b :: 0 <= a < n && 0 <= b < m ==> h(a, b) == f(a, b) + g(a, b)
    ensures DSum(n, m, h) == DSum(n, m, f) + DSum(n, m, g)
  {
    if n > 0 {
      DSumLinear(n - 1, m, f, g, h);
      RowSumLinear(m, f, g, h, n - 1);
    }
  }

  lemma {:induction false} RowSumIndicator(m: nat, f: (nat, nat) -> nat, a: nat, y: nat, hit: bool)
    requires forall b :: 0 <= b < m ==> f(a, b) == if hit && b == y then 1 else 0
    ensures RowSum(m, f, a) == if hit && y < m then 1 else 0
  {
    if m > 0 {
      RowSumIndicator(m - 1, f, a, y, hit);
    }
  }

  /** A grid holding a single 1, at (x, y), sums to 1. */
  lemma {:induction false} DSumIndicator(n: nat, m: nat, f: (nat, nat) -> nat, x: nat, y: nat)
    requires forall a, b :: 0 <= a < n && 0 <= b < m ==> f(a, b) == if a == x && b == y then 1 else 0
    ensures DSum(n, m, f) == if x < n && y < m then 1 else 0
  {
    if n > 0 {
      DSumIndicator(n - 1, m, f, x, y);
      RowSumIndicator(m, f, n - 1, y, n - 1 == x);
    }
  }

  lemma DSumZero(n: nat, m: nat, f: (nat, nat) -> nat)
    requires forall a, b :: 0 <= a < n && 0 <= b < m ==> f(a, b) == 0
    ensures DSum(n, m, f) == 0
  {
    DSumIndicator(n, m, f, n, m);
  }
}
