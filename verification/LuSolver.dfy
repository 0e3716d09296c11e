/** The linear equation solver of benchmark/ludcmp.c: LU factorisation in place without
    pivoting, forward and back substitution.  The doubles are modelled as reals. */
module LuSolver {

  // ---------- Sums ----------

  function Sum(f: int -> real, n: nat): real {
    if n == 0 then 0.0 else Sum(f, n - 1) + f(n - 1)
  }

  lemma {:induction false} SumExt(f: int -> real, g: int -> real, n: nat)
    requires forall k :: 0 <= k < n ==> f(k) == g(k)
    ensures Sum(f, n) == Sum(g, n)
  {
    if n > 0 {
      SumExt(f, g, n - 1);
    }
  }

  lemma Distribute(s: real, x: real, y: real)
    ensures s * (x + y) == s * x + s * y
  {
  }

  lemma {:induction false} SumAdd(f: int -> real, g: int -> real, n: nat)
    ensures Sum(k => f(k) + g(k), n) == Sum(f, n) + Sum(g, n)
  {
    if n > 0 {
      SumAdd(f, g, n - 1);
    }
  }

  lemma {:induction false} SumZero(f: int -> real, n: nat)
    requires forall k :: 0 <= k < n ==> f(k) == 0.0
    ensures Sum(f, n) == 0.0
  {
    if n > 0 {
      SumZero(f, n - 1);
    }
  }

  /** Terms beyond `m` that vanish can be left out. */
  lemma {:induction false} SumTail(f: int -> real, m: nat, n: nat)
    requires m <= n && forall k :: m <= k < n ==> f(k) == 0.0
    ensures Sum(f, n) == Sum(f, m)
  {
    if m < n {
      SumTail(f, m, n - 1);
    }
  }

  /** The order of a double summation does not matter. */
  lemma {:induction false} SumSwap(f: (int, int) -> real, m: nat, n: nat)
    ensures Sum(c => Sum(k => f(k, c), n), m) == Sum(k => Sum(c => f(k, c), m), n)
  {
    var g := k => Sum(c => f(k, c), m);
    if m == 0 {
      SumZero(g, n);
    } else {
      SumSwap(f, m - 1, n);
      var g' := k => Sum(c => f(k, c), m - 1);
      var h := k => f(k, m - 1);
      SumAdd(g', h, n);
      SumExt(g, k => g'(k) + h(k), n);
      SumExt(c => Sum(k => f(k, c), n), c => Sum(k => f(k, c), n), m - 1);
      assert (c => Sum(k => f(k, c), n))(m - 1) == Sum(h, n) by {
        SumExt(k => f(k, m - 1), h, n);
      }
    }
  }

  // ---------- Matrices and factors ----------

  type Matrix = seq<seq<real>>

  function At(m: Matrix, r: int, c: int): real {
    if 0 <= r < |m| && 0 <= c < |m[r]| then m[r][c] else 0.0
  }

  function Elem(x: seq<real>, k: int): real {
    if 0 <= k < |x| then x[k] else 0.0
  }

  /** The unit lower and the upper triangular matrix packed into one. */
  function Lower(m: Matrix, r: int, k: int): real {
    if k < r then At(m, r, k) else if k == r then 1.0 else 0.0
  }

  function Upper(m: Matrix, k: int, c: int): real {
    if k <= c then At(m, k, c) else 0.0
  }

  ghost function ProductTerms(m: Matrix, r: int, c: int): int -> real {
    k => Lower(m, r, k) * Upper(m, k, c)
  }

  /** Entry (r, c) of the product of the two factors. */
  ghost function Product(m: Matrix, n: nat, r: int, c: int): real {
    Sum(ProductTerms(m, r, c), n + 1)
  }

  /** The packed factors `m` multiply back to `A`. */
  ghost predicate Factors(m: Matrix, A: Matrix, n: nat) {
    forall r, c :: 0 <= r <= n && 0 <= c <= n ==> Product(m, n, r, c) == At(A, r, c)
  }

  ghost function RowTimes(A: Matrix, x: seq<real>, n: nat, r: int): real {
    Sum(c => At(A, r, c) * Elem(x, c), n + 1)
  }

  ghost function LowerTerms(m: Matrix, y: seq<real>, r: int): int -> real {
    k => Lower(m, r, k) * Elem(y, k)
  }

  ghost function LowerTimes(m: Matrix, y: seq<real>, n: nat, r: int): real {
    Sum(LowerTerms(m, y, r), n + 1)
  }

  ghost function UpperTerms(m: Matrix, x: seq<real>, k: int): int -> real {
    c => Upper(m, k, c) * Elem(x, c)
  }

  ghost function UpperTimes(m: Matrix, x: seq<real>, n: nat, k: int): real {
    Sum(UpperTerms(m, x, k), n + 1)
  }

  /** `x` solves the equations of rows 0 to `n`. */
  ghost predicate Solves(A: Matrix, x: seq<real>, b: seq<real>, n: nat) {
    forall r :: 0 <= r <= n ==> RowTimes(A, x, n, r) == Elem(b, r)
  }

  ghost predicate SolvesLower(m: Matrix, y: seq<real>, b: seq<real>, n: nat) {
    forall r :: 0 <= r <= n ==> LowerTimes(m, y, n, r) == Elem(b, r)
  }

  ghost predicate SolvesUpper(m: Matrix, x: seq<real>, y: seq<real>, n: nat) {
    forall k :: 0 <= k <= n ==> UpperTimes(m, x, n, k) == Elem(y, k)
  }

  ghost function Triple(m: Matrix, x: seq<real>, r: int, k: int, c: int): real {
    Lower(m, r, k) * Upper(m, k, c) * Elem(x, c)
  }

  lemma Associate(p: real, q: real, s: real)
    ensures p * q * s == s * (p * q) && p * q * s == p * (q * s)
  {
  }

  ghost function ColumnTriples(m: Matrix, x: seq<real>, r: int, c: int): int -> real {
    k => Triple(m, x, r, k, c)
  }

  ghost function RowTriples(m: Matrix, x: seq<real>, r: int, k: int): int -> real {
    c => Triple(m, x, r, k, c)
  }

  lemma {:induction false} ScaleColumn(m: Matrix, x: seq<real>, r: int, c: int, n: nat)
    ensures Sum(ColumnTriples(m, x, r, c), n) == Elem(x, c) * Sum(ProductTerms(m, r, c), n)
  {
    if n > 0 {
      ScaleColumn(m, x, r, c, n - 1);
      Associate(Lower(m, r, n - 1), Upper(m, n - 1, c), Elem(x, c));
      Distribute(Elem(x, c), Sum(ProductTerms(m, r, c), n - 1), ProductTerms(m, r, c)(n - 1));
    }
  }

  lemma {:induction false} ScaleRow(m: Matrix, x: seq<real>, r: int, k: int, n: nat)
    ensures Sum(RowTriples(m, x, r, k), n) == Lower(m, r, k) * Sum(UpperTerms(m, x, k), n)
  {
    if n > 0 {
      ScaleRow(m, x, r, k, n - 1);
      Associate(Lower(m, r, k), Upper(m, k, n - 1), Elem(x, n - 1));
      Distribute(Lower(m, r, k), Sum(UpperTerms(m, x, k), n - 1), UpperTerms(m, x, k)(n - 1));
    }
  }

  lemma ColumnTerm(m: Matrix, A: Matrix, x: seq<real>, n: nat, r: int, c: int)
    requires Factors(m, A, n) && 0 <= r <= n && 0 <= c <= n
    ensures At(A, r, c) * Elem(x, c) == Sum(ColumnTriples(m, x, r, c), n + 1)
  {
    ScaleColumn(m, x, r, c, n + 1);
    assert Product(m, n, r, c) == At(A, r, c);
  }

  lemma ByColumns(m: Matrix, A: Matrix, x: seq<real>, n: nat, r: int, f: (int, int) -> real)
    requires Factors(m, A, n) && 0 <= r <= n
    requires forall k, c :: f(k, c) == Triple(m, x, r, k, c)
    ensures RowTimes(A, x, n, r) == Sum(c => Sum(k => f(k, c), n + 1), n + 1)
  {
    forall c | 0 <= c < n + 1 ensures At(A, r, c) * Elem(x, c) == Sum(k => f(k, c), n + 1) {
      ColumnTerm(m, A, x, n, r, c);
      SumExt(ColumnTriples(m, x, r, c), k => f(k, c), n + 1);
    }
    SumExt(c => At(A, r, c) * Elem(x, c), c => Sum(k => f(k, c), n + 1), n + 1);
  }

  lemma ByRows(m: Matrix, x: seq<real>, n: nat, r: int, f: (int, int) -> real)
    requires forall k, c :: f(k, c) == Triple(m, x, r, k, c)
    ensures Sum(k => Sum(c => f(k, c), n + 1), n + 1) == Sum(k => Lower(m, r, k) * UpperTimes(m, x, n, k), n + 1)
  {
    forall k | 0 <= k < n + 1
      ensures Sum(c => f(k, c), n + 1) == Lower(m, r, k) * UpperTimes(m, x, n, k)
    {
      ScaleRow(m, x, r, k, n + 1);
      SumExt(c => f(k, c), RowTriples(m, x, r, k), n + 1);
    }
    SumExt(k => Sum(c => f(k, c), n + 1), k => Lower(m, r, k) * UpperTimes(m, x, n, k), n + 1);
  }

  /** Multiplying by the factors one after the other is multiplying by `A`. */
  lemma RowThroughFactors(m: Matrix, A: Matrix, x: seq<real>, n: nat, r: int)
    requires Factors(m, A, n) && 0 <= r <= n
    ensures RowTimes(A, x, n, r) == Sum(k => Lower(m, r, k) * UpperTimes(m, x, n, k), n + 1)
  {
    var f := (k: int, c: int) => Triple(m, x, r, k, c);
    ByColumns(m, A, x, n, r, f);
    SumSwap(f, n + 1, n + 1);
    ByRows(m, x, n, r, f);
  }

  /** Solving with the two factors in turn solves the original equations. */
  lemma SubstitutionSolves(m: Matrix, A: Matrix, x: seq<real>, y: seq<real>, b: seq<real>, n: nat)
    requires Factors(m, A, n) && SolvesLower(m, y, b, n) && SolvesUpper(m, x, y, n)
    ensures Solves(A, x, b, n)
  {
    forall r | 0 <= r <= n ensures RowTimes(A, x, n, r) == Elem(b, r) {
      RowThroughFactors(m, A, x, n, r);
      SumExt(k => Lower(m, r, k) * UpperTimes(m, x, n, k), LowerTerms(m, y, r), n + 1);
      assert LowerTimes(m, y, n, r) == Elem(b, r);
    }
  }

  // ---------- Substitution row by row ----------

  /** What the substitution loops subtract: the products of columns `lo` to `hi - 1`. */
  ghost function RowDot(m: Matrix, x: seq<real>, r: int, lo: int, hi: int): real
    decreases hi - lo
  {
    if hi <= lo then 0.0 else RowDot(m, x, r, lo, hi - 1) + At(m, r, hi - 1) * Elem(x, hi - 1)
  }

  ghost predicate Agree(x: seq<real>, x': seq<real>, lo: int, hi: int) {
    forall k {:trigger Elem(x, k)} {:trigger Elem(x', k)} :: lo <= k < hi ==> Elem(x, k) == Elem(x', k)
  }

  lemma {:induction false} RowDotFrame(m: Matrix, x: seq<real>, x': seq<real>, r: int, lo: int, hi: int)
    requires Agree(x, x', lo, hi)
    ensures RowDot(m, x, r, lo, hi) == RowDot(m, x', r, lo, hi)
    decreases hi - lo
  {
    if lo < hi {
      RowDotFrame(m, x, x', r, lo, hi - 1);
    }
  }

  lemma {:induction false} LowerPrefix(m: Matrix, y: seq<real>, r: int, len: nat)
    requires len <= r
    ensures Sum(LowerTerms(m, y, r), len) == RowDot(m, y, r, 0, len)
  {
    if len > 0 {
      LowerPrefix(m, y, r, len - 1);
    }
  }

  lemma LowerRow(m: Matrix, y: seq<real>, n: nat, r: nat)
    requires r <= n
    ensures LowerTimes(m, y, n, r) == RowDot(m, y, r, 0, r) + Elem(y, r)
  {
    SumTail(LowerTerms(m, y, r), r + 1, n + 1);
    LowerPrefix(m, y, r, r);
  }

  lemma {:induction false} UpperSuffix(m: Matrix, x: seq<real>, k: nat, hi: nat)
    requires k < hi
    ensures Sum(UpperTerms(m, x, k), hi) == At(m, k, k) * Elem(x, k) + RowDot(m, x, k, k + 1, hi)
  {
    if hi == k + 1 {
      SumZero(UpperTerms(m, x, k), k);
    } else {
      UpperSuffix(m, x, k, hi - 1);
    }
  }

  /** Row `r` of the forward substitution. */
  ghost predicate ForwardRow(m: Matrix, y: seq<real>, b: seq<real>, r: int) {
    Elem(y, r) == Elem(b, r) - RowDot(m, y, r, 0, r)
  }

  /** Row `k` of the back substitution. */
  ghost predicate BackRow(m: Matrix, x: seq<real>, y: seq<real>, n: nat, k: int) {
    Elem(x, k) * At(m, k, k) == Elem(y, k) - RowDot(m, x, k, k + 1, n + 1)
  }

  lemma ForwardRowSolves(m: Matrix, y: seq<real>, b: seq<real>, n: nat, r: nat)
    requires r <= n
    ensures ForwardRow(m, y, b, r) <==> LowerTimes(m, y, n, r) == Elem(b, r)
  {
    LowerRow(m, y, n, r);
  }

  lemma BackRowSolves(m: Matrix, x: seq<real>, y: seq<real>, n: nat, k: nat)
    requires k <= n
    ensures BackRow(m, x, y, n, k) <==> UpperTimes(m, x, n, k) == Elem(y, k)
  {
    UpperSuffix(m, x, k, n + 1);
  }

  lemma ForwardSolves(m: Matrix, y: seq<real>, b: seq<real>, n: nat)
    requires forall r :: 0 <= r <= n ==> ForwardRow(m, y, b, r)
    ensures SolvesLower(m, y, b, n)
  {
    forall r | 0 <= r <= n ensures LowerTimes(m, y, n, r) == Elem(b, r) {
      ForwardRowSolves(m, y, b, n, r);
    }
  }

  lemma BackSolves(m: Matrix, x: seq<real>, y: seq<real>, n: nat)
    requires forall k :: 0 <= k <= n ==> BackRow(m, x, y, n, k)
    ensures SolvesUpper(m, x, y, n)
  {
    forall k | 0 <= k <= n ensures UpperTimes(m, x, n, k) == Elem(y, k) {
      BackRowSolves(m, x, y, n, k);
    }
  }

  // ---------- Uniqueness ----------

  /** The unit lower factor determines `y`. */
  lemma {:induction false} LowerDetermines(m: Matrix, y: seq<real>, z: seq<real>, b: seq<real>, n: nat, r: nat)
    requires SolvesLower(m, y, b, n) && SolvesLower(m, z, b, n) && r <= n
    ensures Elem(y, r) == Elem(z, r)
  {
    forall k | 0 <= k < r ensures Elem(y, k) == Elem(z, k) {
      LowerDetermines(m, y, z, b, n, k);
    }
    ForwardRowSolves(m, y, b, n, r);
    ForwardRowSolves(m, z, b, n, r);
    RowDotFrame(m, y, z, r, 0, r);
  }

  lemma Cancel(p: real, s: real, t: real)
    requires p != 0.0 && s * p == t * p
    ensures s == t
  {
  }

  /** An upper factor without a zero on its diagonal determines `x`. */
  lemma {:induction false} UpperDetermines(m: Matrix, x: seq<real>, z: seq<real>, y: seq<real>, n: nat, k: nat)
    requires SolvesUpper(m, x, y, n) && SolvesUpper(m, z, y, n) && k <= n
    requires forall i :: k <= i <= n ==> At(m, i, i) != 0.0
    ensures Elem(x, k) == Elem(z, k)
    decreases n - k
  {
    forall i | k < i <= n ensures Elem(x, i) == Elem(z, i) {
      UpperDetermines(m, x, z, y, n, i);
    }
    BackRowSolves(m, x, y, n, k);
    BackRowSolves(m, z, y, n, k);
    RowDotFrame(m, x, z, k, k + 1, n + 1);
    assert BackRow(m, x, y, n, k) && BackRow(m, z, y, n, k);
    Cancel(At(m, k, k), Elem(x, k), Elem(z, k));
  }

  ghost function UpperImage(m: Matrix, x: seq<real>, n: nat): (y: seq<real>)
    ensures SolvesUpper(m, x, y, n)
  {
    seq(n + 1, k => UpperTimes(m, x, n, k))
  }

  /** Any solution of the original equations goes through the factors. */
  lemma SolutionThroughFactors(m: Matrix, A: Matrix, x: seq<real>, b: seq<real>, n: nat)
    requires Factors(m, A, n) && Solves(A, x, b, n)
    ensures SolvesLower(m, UpperImage(m, x, n), b, n)
  {
    var y := UpperImage(m, x, n);
    forall r | 0 <= r <= n ensures LowerTimes(m, y, n, r) == Elem(b, r) {
      RowThroughFactors(m, A, x, n, r);
      SumExt(k => Lower(m, r, k) * UpperTimes(m, x, n, k), LowerTerms(m, y, r), n + 1);
      assert RowTimes(A, x, n, r) == Elem(b, r);
    }
  }

  /** With non-zero pivots the equations have at most one solution. */
  lemma SolutionIsUnique(m: Matrix, A: Matrix, x: seq<real>, z: seq<real>, b: seq<real>, n: nat)
    requires Factors(m, A, n) && Solves(A, x, b, n) && Solves(A, z, b, n)
    requires forall i :: 0 <= i <= n ==> At(m, i, i) != 0.0
    ensures Agree(x, z, 0, n + 1)
  {
    var y, w := UpperImage(m, x, n), UpperImage(m, z, n);
    SolutionThroughFactors(m, A, x, b, n);
    SolutionThroughFactors(m, A, z, b, n);
    assert SolvesUpper(m, z, y, n) by {
      forall k | 0 <= k <= n ensures UpperTimes(m, z, n, k) == Elem(y, k) {
        LowerDetermines(m, y, w, b, n, k);
      }
    }
    forall k | 0 <= k <= n ensures Elem(x, k) == Elem(z, k) {
      UpperDetermines(m, x, z, y, n, k);
    }
  }

  // ---------- The last pivot ----------

  function Zeros(n: nat): (z: seq<real>)
    ensures |z| == n + 1 && forall k :: Elem(z, k) == 0.0
  {
    seq(n + 1, _ => 0.0)
  }

  ghost predicate NonZero(z: seq<real>, n: nat) {
    exists k :: 0 <= k <= n && Elem(z, k) != 0.0
  }

  /** The equations without right-hand side have a solution other than zero. */
  ghost predicate Singular(A: Matrix, n: nat) {
    exists z :: Solves(A, z, Zeros(n), n) && NonZero(z, n)
  }

  ghost predicate Solvable(A: Matrix, b: seq<real>, n: nat) {
    exists z :: Solves(A, z, b, n)
  }

  ghost predicate EarlierPivots(m: Matrix, n: nat) {
    forall k :: 0 <= k < n ==> At(m, k, k) != 0.0
  }

  lemma {:induction false} RowDotZero(m: Matrix, x: seq<real>, r: int, lo: int, hi: int)
    requires forall k :: lo <= k < hi ==> Elem(x, k) == 0.0
    ensures RowDot(m, x, r, lo, hi) == 0.0
    decreases hi - lo
  {
    if lo < hi {
      RowDotZero(m, x, r, lo, hi - 1);
    }
  }

  lemma ZeroSolves(m: Matrix, A: Matrix, n: nat)
    ensures SolvesLower(m, Zeros(n), Zeros(n), n) && Solves(A, Zeros(n), Zeros(n), n)
  {
    forall r | 0 <= r <= n ensures ForwardRow(m, Zeros(n), Zeros(n), r) {
      RowDotZero(m, Zeros(n), r, 0, r);
    }
    ForwardSolves(m, Zeros(n), Zeros(n), n);
    forall r | 0 <= r <= n ensures RowTimes(A, Zeros(n), n, r) == 0.0 {
      SumZero(c => At(A, r, c) * Elem(Zeros(n), c), n + 1);
    }
  }

  /** Rows `k` to `n` of a back substitution can be completed to all rows. */
  lemma {:induction false} Completed(m: Matrix, x: seq<real>, y: seq<real>, n: nat, k: nat) returns (z: seq<real>)
    requires |x| == n + 1 && k <= n && EarlierPivots(m, n)
    requires forall i :: k <= i <= n ==> BackRow(m, x, y, n, i)
    ensures |z| == n + 1 && Elem(z, n) == Elem(x, n) && forall i :: 0 <= i <= n ==> BackRow(m, z, y, n, i)
    decreases k
  {
    if k == 0 {
      return x;
    }
    var w := Quotient(Elem(y, k - 1) - RowDot(m, x, k - 1, k, n + 1), At(m, k - 1, k - 1));
    var x' := x[k - 1 := w];
    RowDotFrame(m, x, x', k - 1, k, n + 1);
    forall i | k <= i <= n ensures BackRow(m, x', y, n, i) {
      BackRowStays(m, x, x', y, n, i);
    }
    z := Completed(m, x', y, n, k - 1);
  }

  /** With a zero last pivot any last entry does, if that of `y` is zero. */
  lemma SolutionWith(m: Matrix, A: Matrix, y: seq<real>, b: seq<real>, n: nat, last: real) returns (z: seq<real>)
    requires Factors(m, A, n) && EarlierPivots(m, n) && At(m, n, n) == 0.0
    requires SolvesLower(m, y, b, n) && Elem(y, n) == 0.0
    ensures Solves(A, z, b, n) && Elem(z, n) == last
  {
    z := Completed(m, Zeros(n)[n := last], y, n, n);
    BackSolves(m, z, y, n);
    SubstitutionSolves(m, A, z, y, b, n);
  }

  /** The last pivot is zero exactly when the original matrix is singular. */
  lemma LastPivotTells(m: Matrix, A: Matrix, n: nat)
    requires Factors(m, A, n) && EarlierPivots(m, n)
    ensures At(m, n, n) == 0.0 <==> Singular(A, n)
  {
    ZeroSolves(m, A, n);
    if At(m, n, n) == 0.0 {
      var z := SolutionWith(m, A, Zeros(n), Zeros(n), n, 1.0);
      assert NonZero(z, n);
    } else {
      forall z | Solves(A, z, Zeros(n), n) ensures !NonZero(z, n) {
        SolutionIsUnique(m, A, z, Zeros(n), Zeros(n), n);
      }
    }
  }

  /** When the last pivot is zero, which the code divides by, the equations have a solution
      exactly if the last entry of the forward substitution is zero too. */
  lemma ZeroLastPivot(m: Matrix, A: Matrix, y: seq<real>, b: seq<real>, n: nat)
    requires Factors(m, A, n) && EarlierPivots(m, n) && At(m, n, n) == 0.0 && SolvesLower(m, y, b, n)
    ensures Solvable(A, b, n) <==> Elem(y, n) == 0.0
  {
    if Elem(y, n) == 0.0 {
      var z := SolutionWith(m, A, y, b, n, 0.0);
    }
    forall x | Solves(A, x, b, n) ensures Elem(y, n) == 0.0 {
      LastEntry(m, A, x, y, b, n);
    }
  }

  lemma LastEntry(m: Matrix, A: Matrix, x: seq<real>, y: seq<real>, b: seq<real>, n: nat)
    requires Factors(m, A, n) && At(m, n, n) == 0.0
    requires SolvesLower(m, y, b, n) && Solves(A, x, b, n)
    ensures Elem(y, n) == 0.0
  {
    var z := UpperImage(m, x, n);
    SolutionThroughFactors(m, A, x, b, n);
    LowerDetermines(m, y, z, b, n, n);
    BackRowSolves(m, x, z, n, n);
  }

  /** Whatever number stands for the last entry then, the rows before it completed, `x` solves
      the equations exactly when there is a solution. */
  lemma AnyLastEntry(m: Matrix, A: Matrix, x: seq<real>, y: seq<real>, b: seq<real>, n: nat)
    requires Factors(m, A, n) && EarlierPivots(m, n) && At(m, n, n) == 0.0 && SolvesLower(m, y, b, n)
    requires forall k :: 0 <= k < n ==> BackRow(m, x, y, n, k)
    ensures Solves(A, x, b, n) <==> Solvable(A, b, n)
  {
    ZeroLastPivot(m, A, y, b, n);
    if Elem(y, n) == 0.0 {
      assert BackRow(m, x, y, n, n);
      BackSolves(m, x, y, n);
      SubstitutionSolves(m, A, x, y, b, n);
    }
  }

  // ---------- Factorising in place ----------

  /** The products the inner loops subtract. */
  ghost function DotTerms(m: Matrix, r: int, c: int): int -> real {
    k => At(m, r, k) * At(m, k, c)
  }

  ghost function Dot(m: Matrix, r: int, c: int, len: nat): real {
    Sum(DotTerms(m, r, c), len)
  }

  function Min(r: int, c: int): int {
    if r <= c then r else c
  }

  /** What the entry itself adds to its dot product. */
  function OwnTerm(m: Matrix, r: int, c: int): real {
    if r <= c then At(m, r, c) else At(m, r, c) * At(m, c, c)
  }

  /** The entry (r, c) of `m` is the final factor entry for `A`. */
  ghost predicate EntryOk(m: Matrix, A: Matrix, r: nat, c: nat) {
    At(A, r, c) == Dot(m, r, c, Min(r, c)) + OwnTerm(m, r, c)
  }

  /** The entries computed so far: rows of the upper factor before `u`, and row `u` before
      column `q`; columns of the lower factor before `v`, and column `v` above row `p`. */
  predicate Known(u: int, q: int, v: int, p: int, r: int, c: int) {
    if r <= c then r < u || (r == u && c < q) else c < v || (c == v && r < p)
  }

  /** Known entries are final, the others still those of `A`. */
  ghost predicate Partial(m: Matrix, A: Matrix, n: nat, u: int, q: int, v: int, p: int) {
    forall r, c {:trigger Known(u, q, v, p, r, c)} :: 0 <= r <= n && 0 <= c <= n ==>
      if Known(u, q, v, p, r, c) then EntryOk(m, A, r, c) else At(m, r, c) == At(A, r, c)
  }

  /** `m'` differs from `m` in the entry (r0, c0) only. */
  ghost predicate SetOnly(m: Matrix, m': Matrix, r0: int, c0: int) {
    forall r, c {:trigger At(m', r, c)} :: (r != r0 || c != c0) ==> At(m', r, c) == At(m, r, c)
  }

  lemma DotFrame(m: Matrix, m': Matrix, r0: int, c0: int, r: int, c: int, len: nat)
    requires SetOnly(m, m', r0, c0) && !(r == r0 && c0 < len) && !(c == c0 && r0 < len)
    ensures Dot(m', r, c, len) == Dot(m, r, c, len)
  {
    SumExt(DotTerms(m', r, c), DotTerms(m, r, c), len);
  }

  /** Final entries do not use an entry of a later row and column. */
  lemma EntryFrame(m: Matrix, m': Matrix, A: Matrix, r0: int, c0: int, r: nat, c: nat)
    requires SetOnly(m, m', r0, c0) && EntryOk(m, A, r, c) && (r, c) != (r0, c0)
    requires var len := Min(r, c);
      !(r == r0 && c0 < len) && !(c == c0 && r0 < len) && !(r > c && r0 == c && c0 == c)
    ensures EntryOk(m', A, r, c)
  {
    DotFrame(m, m', r0, c0, r, c, Min(r, c));
  }

  /** A known entry stays final when the next entry of column `i`, or of row `i + 1`,
      is computed. */
  lemma KnownStays(m: Matrix, m': Matrix, A: Matrix, i: int, r0: int, c0: int, u: int, q: int, v: int, p: int,
                   r: nat, c: nat)
    requires 0 <= i && SetOnly(m, m', r0, c0) && (r, c) != (r0, c0)
    requires (i < r0 && c0 == i && (u, q, v, p) == (i + 1, 0, i, r0))
      || (r0 == i + 1 && i < c0 && (u, q, v, p) == (i + 1, c0, i + 1, 0))
    requires Known(u, q, v, p, r, c) && EntryOk(m, A, r, c)
    ensures EntryOk(m', A, r, c)
  {
    EntryFrame(m, m', A, r0, c0, r, c);
  }

  /** The column step: a lower entry of column `i`. */
  lemma ColumnStep(m: Matrix, m': Matrix, A: Matrix, n: nat, i: int, j: int)
    requires 0 <= i < j <= n && Partial(m, A, n, i + 1, 0, i, j) && SetOnly(m, m', j, i)
    requires At(m', j, i) * At(m, i, i) == At(m, j, i) - Dot(m, j, i, i)
    ensures Partial(m', A, n, i + 1, 0, i, j + 1)
  {
    assert !Known(i + 1, 0, i, j, j, i);
    NewLower(m, m', A, i, j);
    forall r, c | 0 <= r <= n && 0 <= c <= n
      ensures if Known(i + 1, 0, i, j + 1, r, c) then EntryOk(m', A, r, c) else At(m', r, c) == At(A, r, c)
    {
      if (r, c) != (j, i) && Known(i + 1, 0, i, j, r, c) {
        KnownStays(m, m', A, i, j, i, i + 1, 0, i, j, r, c);
      }
    }
  }

  lemma NewLower(m: Matrix, m': Matrix, A: Matrix, i: nat, j: nat)
    requires i < j && SetOnly(m, m', j, i) && At(m, j, i) == At(A, j, i)
    requires At(m', j, i) * At(m, i, i) == At(m, j, i) - Dot(m, j, i, i)
    ensures EntryOk(m', A, j, i)
  {
    DotFrame(m, m', j, i, j, i, i);
    assert At(m', i, i) == At(m, i, i);
  }

  /** The row step: an upper entry of row `i + 1`. */
  lemma RowStep(m: Matrix, m': Matrix, A: Matrix, n: nat, i: int, j: int)
    requires 0 <= i < j <= n && Partial(m, A, n, i + 1, j, i + 1, 0) && SetOnly(m, m', i + 1, j)
    requires At(m', i + 1, j) == At(m, i + 1, j) - Dot(m, i + 1, j, i + 1)
    ensures Partial(m', A, n, i + 1, j + 1, i + 1, 0)
  {
    assert !Known(i + 1, j, i + 1, 0, i + 1, j);
    DotFrame(m, m', i + 1, j, i + 1, j, i + 1);
    forall r, c | 0 <= r <= n && 0 <= c <= n
      ensures if Known(i + 1, j + 1, i + 1, 0, r, c) then EntryOk(m', A, r, c) else At(m', r, c) == At(A, r, c)
    {
      if (r, c) != (i + 1, j) && Known(i + 1, j, i + 1, 0, r, c) {
        KnownStays(m, m', A, i, i + 1, j, i + 1, j, i + 1, 0, r, c);
      }
    }
  }

  lemma ProductTerm(m: Matrix, r: int, c: int, k: int)
    ensures k < Min(r, c) ==> ProductTerms(m, r, c)(k) == DotTerms(m, r, c)(k)
    ensures k > Min(r, c) ==> ProductTerms(m, r, c)(k) == 0.0
    ensures k == Min(r, c) ==> ProductTerms(m, r, c)(k) == OwnTerm(m, r, c)
  {
  }

  /** The product is the dot product of the packed entries plus the entry's own term. */
  lemma ProductIsDot(m: Matrix, n: nat, r: int, c: int)
    requires 0 <= r <= n && 0 <= c <= n
    ensures Product(m, n, r, c) == Dot(m, r, c, Min(r, c)) + OwnTerm(m, r, c)
  {
    var f, g, len := ProductTerms(m, r, c), DotTerms(m, r, c), Min(r, c);
    forall k ensures (k < len ==> f(k) == g(k)) && (k > len ==> f(k) == 0.0) {
      ProductTerm(m, r, c, k);
    }
    SumTail(f, len + 1, n + 1);
    SumExt(f, g, len);
    ProductTerm(m, r, c, len);
  }

  lemma AllKnownFactors(m: Matrix, A: Matrix, n: nat)
    requires Partial(m, A, n, n + 1, 0, n, 0)
    ensures Factors(m, A, n)
  {
    forall r, c | 0 <= r <= n && 0 <= c <= n ensures Product(m, n, r, c) == At(A, r, c) {
      assert Known(n + 1, 0, n, 0, r, c);
      ProductIsDot(m, n, r, c);
    }
  }

  // ---------- The solver ----------

  const SIZE := 50

  ghost function Rows(a: array2<real>): (m: Matrix)
    reads a
    ensures |m| == a.Length0 && forall r :: 0 <= r < |m| ==> |m[r]| == a.Length1
    ensures forall r, c :: 0 <= r < a.Length0 && 0 <= c < a.Length1 ==> At(m, r, c) == a[r, c]
  {
    seq(a.Length0, r requires 0 <= r < a.Length0 reads a =>
      seq(a.Length1, c requires 0 <= c < a.Length1 reads a => a[r, c]))
  }

  function Fabs(n: real): real {
    if n >= 0.0 then n else -n
  }

  lemma DotNext(m: Matrix, r: int, c: int, k: nat)
    ensures Dot(m, r, c, k + 1) == Dot(m, r, c, k) + At(m, r, k) * At(m, k, c)
  {
  }

  /** The inner loops: an entry minus a dot product of packed entries. */
  method Residue(a: array2<real>, r: int, c: int, len: nat) returns (w: real)
    requires 0 <= r < a.Length0 && 0 <= c < a.Length1 && len <= a.Length0 && len <= a.Length1
    ensures w == At(Rows(a), r, c) - Dot(Rows(a), r, c, len)
  {
    ghost var m := Rows(a);
    w := a[r, c];
    for k := 0 to len
      invariant w == At(m, r, c) - Dot(m, r, c, k)
    {
      DotNext(m, r, c, k);
      assert a[r, k] == At(m, r, k) && a[k, c] == At(m, k, c);
      w := w - a[r, k] * a[k, c];
    }
  }

  method SetEntry(a: array2<real>, r: int, c: int, w: real)
    requires 0 <= r < a.Length0 && 0 <= c < a.Length1
    modifies a
    ensures SetOnly(old(Rows(a)), Rows(a), r, c) && At(Rows(a), r, c) == w
    ensures forall i, j :: 0 <= i < a.Length0 && 0 <= j < a.Length1 && (i, j) != (r, c) ==> a[i, j] == old(a[i, j])
  {
    a[r, c] := w;
  }

  function Quotient(w: real, p: real): (q: real)
    requires p != 0.0
    ensures q * p == w
  {
    w / p
  }

  /** Which entries are known is what counts, not how the frontier is described. */
  lemma SameKnown(m: Matrix, A: Matrix, n: nat, u: int, q: int, v: int, p: int, u': int, q': int, v': int, p': int)
    requires Partial(m, A, n, u, q, v, p)
    requires forall r, c :: 0 <= r <= n && 0 <= c <= n ==> (Known(u, q, v, p, r, c) <==> Known(u', q', v', p', r, c))
    ensures Partial(m, A, n, u', q', v', p')
  {
  }

  /** Computes entry `j` of column `i`, below the diagonal. */
  method ColumnEntry(a: array2<real>, n: nat, i: nat, j: nat, ghost A: Matrix)
    requires a.Length0 == SIZE && a.Length1 == SIZE && i < j <= n < SIZE && a[i, i] != 0.0
    requires Partial(Rows(a), A, n, i + 1, 0, i, j)
    modifies a
    ensures Partial(Rows(a), A, n, i + 1, 0, i, j + 1)
    ensures forall k :: 0 <= k < SIZE ==> a[k, k] == old(a[k, k])
  {
    var w := Residue(a, j, i, i);
    var q := Quotient(w, a[i, i]);
    SetEntry(a, j, i, q);
    ColumnStep(old(Rows(a)), Rows(a), A, n, i, j);
  }

  /** Computes the entries of column `i` below the diagonal. */
  method FactorColumn(a: array2<real>, n: nat, i: nat, ghost A: Matrix)
    requires a.Length0 == SIZE && a.Length1 == SIZE && i < n < SIZE && a[i, i] != 0.0
    requires Partial(Rows(a), A, n, i + 1, 0, i, 0)
    modifies a
    ensures Partial(Rows(a), A, n, i + 1, 0, i + 1, 0)
    ensures forall k :: 0 <= k < SIZE ==> a[k, k] == old(a[k, k])
  {
    SameKnown(Rows(a), A, n, i + 1, 0, i, 0, i + 1, 0, i, i + 1);
    for j := i + 1 to n + 1
      invariant Partial(Rows(a), A, n, i + 1, 0, i, j)
      invariant forall k :: 0 <= k < SIZE ==> a[k, k] == old(a[k, k])
    {
      ColumnEntry(a, n, i, j, A);
    }
    SameKnown(Rows(a), A, n, i + 1, 0, i, n + 1, i + 1, 0, i + 1, 0);
  }

  /** Computes the entries of row `i + 1` from the diagonal on. */
  method FactorRow(a: array2<real>, n: nat, i: nat, ghost A: Matrix)
    requires a.Length0 == SIZE && a.Length1 == SIZE && i < n < SIZE
    requires Partial(Rows(a), A, n, i + 1, 0, i + 1, 0)
    modifies a
    ensures Partial(Rows(a), A, n, i + 2, 0, i + 1, 0)
    ensures forall k :: 0 <= k <= i ==> a[k, k] == old(a[k, k])
  {
    SameKnown(Rows(a), A, n, i + 1, 0, i + 1, 0, i + 1, i + 1, i + 1, 0);
    for j := i + 1 to n + 1
      invariant Partial(Rows(a), A, n, i + 1, j, i + 1, 0)
      invariant forall k :: 0 <= k <= i ==> a[k, k] == old(a[k, k])
    {
      ghost var m := Rows(a);
      var w := Residue(a, i + 1, j, i + 1);
      SetEntry(a, i + 1, j, w);
      RowStep(m, Rows(a), A, n, i, j);
    }
    SameKnown(Rows(a), A, n, i + 1, n + 1, i + 1, 0, i + 2, 0, i + 1, 0);
  }

  lemma NothingKnown(m: Matrix, n: nat)
    ensures Partial(m, m, n, 1, 0, 0, 0)
  {
    forall r, c | 0 <= r <= n && 0 <= c <= n && Known(1, 0, 0, 0, r, c)
      ensures EntryOk(m, m, r, c)
    {
      assert r == 0;
    }
  }

  /** The factorisation; stops with 1 at a pivot of at most `eps`. */
  method Factorise(a: array2<real>, n: nat, eps: real) returns (r: int, ghost at: nat)
    requires a.Length0 == SIZE && a.Length1 == SIZE && n < SIZE && eps > 0.0
    modifies a
    ensures r == 0 || r == 1
    ensures r == 0 ==> Factors(Rows(a), old(Rows(a)), n) && forall k :: 0 <= k < n ==> Fabs(a[k, k]) > eps
    ensures r == 1 ==> at < n && Fabs(a[at, at]) <= eps && Partial(Rows(a), old(Rows(a)), n, at + 1, 0, at, 0)
  {
    ghost var A := Rows(a);
    at := 0;
    NothingKnown(A, n);
    for i := 0 to n
      invariant Partial(Rows(a), A, n, i + 1, 0, i, 0)
      invariant forall k :: 0 <= k < i ==> Fabs(a[k, k]) > eps
    {
      if Fabs(a[i, i]) <= eps {
        return 1, i;
      }
      FactorColumn(a, n, i, A);
      FactorRow(a, n, i, A);
    }
    AllKnownFactors(Rows(a), A, n);
    r := 0;
  }

  /** The inner loops of the substitutions: `w` minus the products of columns `lo` to `hi - 1`. */
  method SubtractRow(a: array2<real>, x: array<real>, start: real, r: int, lo: int, hi: int) returns (w: real)
    requires 0 <= r < a.Length0 && 0 <= lo <= hi <= a.Length1 && hi <= x.Length
    ensures w == start - RowDot(Rows(a), x[..], r, lo, hi)
  {
    ghost var m := Rows(a);
    w := start;
    for j := lo to hi
      invariant w == start - RowDot(m, x[..], r, lo, j)
    {
      assert a[r, j] == At(m, r, j) && x[j] == Elem(x[..], j);
      w := w - a[r, j] * x[j];
    }
  }

  method SetElem(x: array<real>, i: int, w: real)
    requires 0 <= i < x.Length
    modifies x
    ensures Elem(x[..], i) == w
    ensures forall k {:trigger Elem(x[..], k)} :: k != i ==> Elem(x[..], k) == Elem(old(x[..]), k)
  {
    x[i] := w;
  }

  lemma ForwardRowStays(m: Matrix, y: seq<real>, y': seq<real>, b: seq<real>, r: int)
    requires ForwardRow(m, y, b, r) && Agree(y, y', 0, r + 1) && 0 <= r
    ensures ForwardRow(m, y', b, r)
  {
    RowDotFrame(m, y, y', r, 0, r);
  }

  lemma BackRowStays(m: Matrix, x: seq<real>, x': seq<real>, y: seq<real>, n: nat, k: int)
    requires BackRow(m, x, y, n, k) && Agree(x, x', k, n + 1) && k <= n
    ensures BackRow(m, x', y, n, k)
  {
    RowDotFrame(m, x, x', k, k + 1, n + 1);
  }

  /** Forward substitution with the unit lower factor. */
  method Forward(a: array2<real>, b: array<real>, y: array<real>, n: nat)
    requires a.Length0 == SIZE && a.Length1 == SIZE && n < SIZE && b.Length == SIZE && y.Length == 2 * SIZE
    requires y != b
    modifies y
    ensures SolvesLower(Rows(a), y[..], b[..], n)
  {
    ghost var m := Rows(a);
    y[0] := b[0];
    for i := 1 to n + 1
      invariant forall r :: 0 <= r < i ==> ForwardRow(m, y[..], b[..], r)
    {
      ghost var y0 := y[..];
      var w := SubtractRow(a, y, b[i], i, 0, i);
      SetElem(y, i, w);
      RowDotFrame(m, y0, y[..], i, 0, i);
      forall r | 0 <= r < i ensures ForwardRow(m, y[..], b[..], r) {
        ForwardRowStays(m, y0, y[..], b[..], r);
      }
    }
    ForwardSolves(m, y[..], b[..], n);
  }

  /** One row of the back substitution. */
  method BackStep(a: array2<real>, x: array<real>, y: array<real>, n: nat, i: nat)
    requires a.Length0 == SIZE && a.Length1 == SIZE && i <= n < SIZE && x.Length == SIZE && y.Length == 2 * SIZE
    requires x != y && a[i, i] != 0.0
    modifies x
    ensures BackRow(Rows(a), x[..], y[..], n, i)
    ensures forall k :: i < k <= n && BackRow(Rows(a), old(x[..]), y[..], n, k) ==> BackRow(Rows(a), x[..], y[..], n, k)
  {
    ghost var m, x0 := Rows(a), x[..];
    var w := SubtractRow(a, x, y[i], i, i + 1, n + 1);
    var q := Quotient(w, a[i, i]);
    SetElem(x, i, q);
    RowDotFrame(m, x0, x[..], i, i + 1, n + 1);
    forall k | i < k <= n && BackRow(m, x0, y[..], n, k) ensures BackRow(m, x[..], y[..], n, k) {
      BackRowStays(m, x0, x[..], y[..], n, k);
    }
  }

  /** Back substitution with the upper factor.  Division by a zero last pivot gives no
      number; the entry and those computed from it are then arbitrary. */
  method Back(a: array2<real>, x: array<real>, y: array<real>, n: nat)
    requires a.Length0 == SIZE && a.Length1 == SIZE && n < SIZE && x.Length == SIZE && y.Length == 2 * SIZE
    requires x != y && forall k :: 0 <= k < n ==> a[k, k] != 0.0
    modifies x
    ensures a[n, n] != 0.0 ==> SolvesUpper(Rows(a), x[..], y[..], n)
    ensures forall k :: 0 <= k < n ==> BackRow(Rows(a), x[..], y[..], n, k)
  {
    ghost var m := Rows(a);
    if a[n, n] == 0.0 {
      x[n] := *;
    } else {
      BackStep(a, x, y, n, n);
    }
    var i := n - 1;
    while i >= 0
      invariant -1 <= i < n
      invariant forall k :: i < k < n ==> BackRow(m, x[..], y[..], n, k)
      invariant a[n, n] != 0.0 ==> BackRow(m, x[..], y[..], n, n)
    {
      BackStep(a, x, y, n, i);
      i := i - 1;
    }
    if a[n, n] != 0.0 {
      BackSolves(m, x[..], y[..], n);
    }
  }

  /** ludcmp: 999 for rejected parameters, 1 for a pivot of at most `eps`, 0 otherwise. */
  method Ludcmp(a: array2<real>, b: array<real>, x: array<real>, n: int, eps: real) returns (r: int, ghost y: seq<real>)
    requires a.Length0 == SIZE && a.Length1 == SIZE && b.Length == SIZE && x.Length == SIZE && x != b
    requires n > 99 || eps <= 0.0 || 0 <= n < SIZE
    modifies a, x
    ensures r == 999 <==> n > 99 || eps <= 0.0
    ensures r == 999 ==> Rows(a) == old(Rows(a))
    ensures r != 0 ==> x[..] == old(x[..])
    ensures r == 0 || r == 1 || r == 999
    ensures r == 1 ==> exists k ::
      0 <= k < n && Fabs(a[k, k]) <= eps && Partial(Rows(a), old(Rows(a)), n, k + 1, 0, k, 0)
    ensures r == 0 ==> Factors(Rows(a), old(Rows(a)), n) && forall k :: 0 <= k < n ==> Fabs(a[k, k]) > eps
    ensures r == 0 ==> SolvesLower(Rows(a), y, b[..], n)
    ensures r == 0 && a[n, n] != 0.0 ==> Solves(old(Rows(a)), x[..], b[..], n)
    ensures r == 0 && a[n, n] == 0.0 ==> forall k :: 0 <= k < n ==> BackRow(Rows(a), x[..], y, n, k)
    ensures r == 0 ==> (a[n, n] == 0.0 <==> Singular(old(Rows(a)), n))
    ensures r == 0 ==> (Solves(old(Rows(a)), x[..], b[..], n) <==> Solvable(old(Rows(a)), b[..], n))
    ensures r == 0 && a[n, n] == 0.0 ==> (Solvable(old(Rows(a)), b[..], n) <==> Elem(y, n) == 0.0)
  {
    if n > 99 || eps <= 0.0 {
      return 999, [];
    }
    ghost var A := Rows(a);
    ghost var at;
    r, at := Factorise(a, n, eps);
    if r == 1 {
      return 1, [];
    }
    var ys := new real[2 * SIZE];
    Forward(a, b, ys, n);
    Back(a, x, ys, n);
    y := ys[..];
    LastPivotTells(Rows(a), A, n);
    if a[n, n] != 0.0 {
      SubstitutionSolves(Rows(a), A, x[..], y, b[..], n);
    } else {
      AnyLastEntry(Rows(a), A, x[..], y, b[..], n);
      ZeroLastPivot(Rows(a), A, y, b[..], n);
    }
  }

  lemma NoSolution(A: Matrix, b: seq<real>)
    requires At(A, 0, 0) == 0.0 && Elem(b, 0) == 1.0
    ensures !Solvable(A, b, 0)
  {
    forall z ensures !Solves(A, z, b, 0) {
      SumZero(c => At(A, 0, c) * Elem(z, c), 1);
    }
  }

  /** One equation 0 x = 1: the code divides by the zero pivot, reports success, and no `x`
      is a solution. */
  method UnsolvableInput() returns (r: int, ghost A: Matrix, b: array<real>, x: array<real>)
    ensures r == 0 && At(A, 0, 0) == 0.0 && Elem(b[..], 0) == 1.0
    ensures Singular(A, 0) && !Solvable(A, b[..], 0) && !Solves(A, x[..], b[..], 0)
  {
    var a := new real[SIZE, SIZE]((_, _) => 0.0);
    b := new real[SIZE](_ => 1.0);
    x := new real[SIZE](_ => 0.0);
    A := Rows(a);
    ghost var y;
    r, y := Ludcmp(a, b, x, 0, 0.001);
    NoSolution(A, b[..]);
    OnePivot(Rows(a), A);
  }

  lemma OnePivot(m: Matrix, A: Matrix)
    requires Factors(m, A, 0)
    ensures At(m, 0, 0) == At(A, 0, 0)
  {
    assert Product(m, 0, 0, 0) == At(A, 0, 0);
    assert Sum(ProductTerms(m, 0, 0), 0) == 0.0;
  }
}
