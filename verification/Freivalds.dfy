/** Freivalds' check of a claimed matrix product (freivalds_check.py), in exact arithmetic: what one
    trial decides, and how many of all possible random draws let a wrong product pass. */
module Freivalds {

  type Vector = seq<real>
  type Matrix = seq<Vector>
  type Draw = seq<bool>

  ghost predicate Shaped(m: Matrix, rows: nat, cols: nat) {
    |m| == rows && forall i :: 0 <= i < rows ==> |m[i]| == cols
  }

  function Dot(x: Vector, y: Vector): real
    requires |x| == |y|
  {
    if x == [] then 0.0 else x[0] * y[0] + Dot(x[1..], y[1..])
  }

  /** `m @ v`. */
  function Apply(m: Matrix, v: Vector): (r: Vector)
    requires forall i :: 0 <= i < |m| ==> |m[i]| == |v|
    ensures |r| == |m|
  {
    seq(|m|, i requires 0 <= i < |m| => Dot(m[i], v))
  }

  function Column(m: Matrix, j: nat): (c: Vector)
    requires forall i :: 0 <= i < |m| ==> j < |m[i]|
    ensures |c| == |m|
  {
    seq(|m|, i requires 0 <= i < |m| => m[i][j])
  }

  /** One row of `a @ b`, for `b` with `n` columns. */
  function RowProduct(row: Vector, b: Matrix, n: nat): (r: Vector)
    requires Shaped(b, |row|, n)
    ensures |r| == n
  {
    seq(n, j requires 0 <= j < n => Dot(row, Column(b, j)))
  }

  function Product(a: Matrix, b: Matrix, n: nat): (c: Matrix)
    requires Shaped(a, |a|, |b|) && Shaped(b, |b|, n)
    ensures Shaped(c, |a|, n)
  {
    seq(|a|, i requires 0 <= i < |a| => RowProduct(a[i], b, n))
  }

  /** The 0/1 vector drawn, as numbers. */
  function Numbers(draw: Draw): (v: Vector)
    ensures |v| == |draw|
  {
    seq(|draw|, i requires 0 <= i < |draw| => if draw[i] then 1.0 else 0.0)
  }

  ghost predicate Conforms(a: Matrix, b: Matrix, c: Matrix, n: nat) {
    Shaped(a, |a|, |b|) && Shaped(b, |b|, n) && Shaped(c, |a|, n)
  }

  /** One trial: A (B r) against C r. */
  predicate Passes(a: Matrix, b: Matrix, c: Matrix, n: nat, draw: Draw)
    requires Conforms(a, b, c, n) && |draw| == n
  {
    var r := Numbers(draw);
    Apply(a, Apply(b, r)) == Apply(c, r)
  }

  /** `draws` stands for what the random generator yields. */
  method FreivaldsCheck(a: Matrix, b: Matrix, c: Matrix, ghost n: nat, draws: seq<Draw>) returns (ok: bool)
    requires Conforms(a, b, c, n) && forall draw :: draw in draws ==> |draw| == n
    ensures ok <==> forall draw :: draw in draws ==> Passes(a, b, c, n, draw)
  {
    for t := 0 to |draws|
      invariant forall s :: 0 <= s < t ==> Passes(a, b, c, n, draws[s])
    {
      var r := Numbers(draws[t]);
      var lhs := Apply(a, Apply(b, r));
      var rhs := Apply(c, r);
      if lhs != rhs {
        assert !Passes(a, b, c, n, draws[t]);
        return false;
      }
    }
    ok := true;
  }

  // ----- Multiplying by a vector first, or by the matrix first

  /** z == f x + y */
  ghost predicate AddsScaled(f: real, x: Vector, y: Vector, z: Vector) {
    |x| == |y| == |z| && forall j :: 0 <= j < |z| ==> z[j] == f * x[j] + y[j]
  }

  lemma {:induction false} DotAddsScaled(f: real, x: Vector, y: Vector, z: Vector, v: Vector)
    requires AddsScaled(f, x, y, z) && |z| == |v|
    ensures Dot(z, v) == f * Dot(x, v) + Dot(y, v)
  {
    if z != [] {
      DotAddsScaled(f, x[1..], y[1..], z[1..], v[1..]);
      Distribute(f, x[0], y[0], v[0], Dot(x[1..], v[1..]));
    }
  }

  lemma Distribute(f: real, x: real, y: real, v: real, d: real)
    ensures (f * x + y) * v == f * (x * v) + y * v
    ensures f * (x * v + d) == f * (x * v) + f * d
  {
  }

  lemma {:induction false} DotOfZeros(z: Vector, v: Vector)
    requires |z| == |v| && forall j :: 0 <= j < |z| ==> z[j] == 0.0
    ensures Dot(z, v) == 0.0
  {
    if z != [] { DotOfZeros(z[1..], v[1..]); }
  }

  lemma RowProductStep(row: Vector, b: Matrix, n: nat)
    requires Shaped(b, |row|, n) && row != []
    ensures AddsScaled(row[0], b[0], RowProduct(row[1..], b[1..], n), RowProduct(row, b, n))
  {
    forall j | 0 <= j < n
      ensures RowProduct(row, b, n)[j] == row[0] * b[0][j] + RowProduct(row[1..], b[1..], n)[j]
    {
      assert Column(b, j)[1..] == Column(b[1..], j);
    }
  }

  lemma ApplyUnfolds(b: Matrix, v: Vector)
    requires b != [] && forall i :: 0 <= i < |b| ==> |b[i]| == |v|
    ensures Apply(b, v)[0] == Dot(b[0], v) && Apply(b, v)[1..] == Apply(b[1..], v)
  {
    forall i | 0 <= i < |b| - 1
      ensures Apply(b, v)[1..][i] == Apply(b[1..], v)[i]
    {
      assert b[1..][i] == b[i + 1];
    }
  }

  lemma DotUnfolds(x: Vector, y: Vector, head: real, tail: Vector)
    requires |x| == |y| > 0 && y[0] == head && y[1..] == tail
    ensures Dot(x, y) == x[0] * head + Dot(x[1..], tail)
  {
  }

  lemma ProductStep(row: Vector, b: Matrix, n: nat, v: Vector)
    requires Shaped(b, |row|, n) && |v| == n && row != []
    ensures Dot(RowProduct(row, b, n), v) == row[0] * Dot(b[0], v) + Dot(RowProduct(row[1..], b[1..], n), v)
  {
    RowProductStep(row, b, n);
    DotAddsScaled(row[0], b[0], RowProduct(row[1..], b[1..], n), RowProduct(row, b, n), v);
  }

  lemma {:induction false} RowAssociates(row: Vector, b: Matrix, n: nat, v: Vector)
    requires Shaped(b, |row|, n) && |v| == n
    ensures Dot(row, Apply(b, v)) == Dot(RowProduct(row, b, n), v)
  {
    if row == [] {
      DotOfZeros(RowProduct(row, b, n), v);
    } else {
      RowAssociates(row[1..], b[1..], n, v);
      ApplyUnfolds(b, v);
      DotUnfolds(row, Apply(b, v), Dot(b[0], v), Apply(b[1..], v));
      ProductStep(row, b, n, v);
    }
  }

  lemma ProductAssociates(a: Matrix, b: Matrix, n: nat, v: Vector)
    requires Shaped(a, |a|, |b|) && Shaped(b, |b|, n) && |v| == n
    ensures Apply(a, Apply(b, v)) == Apply(Product(a, b, n), v)
  {
    forall i | 0 <= i < |a|
      ensures Dot(a[i], Apply(b, v)) == Dot(Product(a, b, n)[i], v)
    {
      RowAssociates(a[i], b, n, v);
    }
  }

  /** A correct product passes whatever is drawn. */
  lemma CorrectProductPasses(a: Matrix, b: Matrix, c: Matrix, n: nat, draw: Draw)
    requires Conforms(a, b, c, n) && |draw| == n && c == Product(a, b, n)
    ensures Passes(a, b, c, n, draw)
  {
    ProductAssociates(a, b, n, Numbers(draw));
  }

  // ----- Products, sums and draws in numbers

  /** The sum of f(0), ..., f(n - 1). */
  function SumOf(n: nat, f: nat -> real): real { if n == 0 then 0.0 else SumOf(n - 1, f) + f(n - 1) }

  lemma {:induction false} SumFromFront(n: nat, f: nat -> real, g: nat -> real)
    requires n > 0 && forall k: nat :: k < n - 1 ==> g(k) == f(k + 1)
    ensures SumOf(n, f) == f(0) + SumOf(n - 1, g)
  {
    if n > 1 { SumFromFront(n - 1, f, g); }
  }

  ghost predicate AreProducts(x: Vector, y: Vector, f: nat -> real) {
    |x| == |y| && forall k: nat :: k < |x| ==> f(k) == x[k] * y[k]
  }

  lemma {:induction false} DotIsSum(x: Vector, y: Vector, f: nat -> real)
    requires |x| == |y| && AreProducts(x, y, f)
    ensures Dot(x, y) == SumOf(|x|, f)
  {
    if x != [] {
      var g := (k: nat) => f(k + 1);
      DotIsSum(x[1..], y[1..], g);
      SumFromFront(|x|, f, g);
    }
  }

  /** Entry (i, j) of the product is the sum over k of the products of a[i][k] and b[k][j]. */
  lemma EntryIsSum(a: Matrix, b: Matrix, n: nat, i: nat, j: nat, column: Vector, f: nat -> real)
    requires Shaped(a, |a|, |b|) && Shaped(b, |b|, n) && i < |a| && j < n
    requires |column| == |b| && forall k :: 0 <= k < |b| ==> column[k] == b[k][j]
    requires AreProducts(a[i], column, f)
    ensures Product(a, b, n)[i][j] == SumOf(|b|, f)
  {
    EntryIsDot(a, b, n, i, j);
    assert column == Column(b, j);
    DotIsSum(a[i], column, f);
  }

  lemma EntryIsDot(a: Matrix, b: Matrix, n: nat, i: nat, j: nat)
    requires Shaped(a, |a|, |b|) && Shaped(b, |b|, n) && i < |a| && j < n
    ensures Product(a, b, n)[i][j] == Dot(a[i], Column(b, j))
  {
  }

  /** A draw passes exactly if, in every row, the errors in the drawn columns cancel out. */
  lemma PassesIfErrorsCancel(a: Matrix, b: Matrix, c: Matrix, n: nat, draw: Draw)
    requires Conforms(a, b, c, n) && |draw| == n
    ensures Passes(a, b, c, n, draw)
       <==> forall i: nat :: i < |a| ==> SumOf(n, Errors(Product(a, b, n)[i], c[i], draw)) == 0.0
  {
    var r := Numbers(draw);
    ProductAssociates(a, b, n, r);
    forall i: nat | i < |a|
      ensures Apply(a, Apply(b, r))[i] == Apply(c, r)[i]
         <==> SumOf(n, Errors(Product(a, b, n)[i], c[i], draw)) == 0.0
    {
      ErrorsAreDifference(Product(a, b, n)[i], c[i], draw, n);
    }
  }

  /** The error of each drawn column, and nothing for the others. */
  function Errors(product: Vector, claimed: Vector, draw: Draw): nat -> real
    requires |product| == |claimed| == |draw|
  {
    (j: nat) => if j < |draw| && draw[j] then product[j] - claimed[j] else 0.0
  }

  lemma {:induction false} ErrorsAreDifference(product: Vector, claimed: Vector, draw: Draw, n: nat)
    requires |product| == |claimed| == |draw| == n
    ensures SumOf(n, Errors(product, claimed, draw)) == Dot(product, Numbers(draw)) - Dot(claimed, Numbers(draw))
    decreases n
  {
    if n > 0 {
      assert Numbers(draw)[1..] == Numbers(draw[1..]);
      ErrorsAreDifference(product[1..], claimed[1..], draw[1..], n - 1);
      SumFromFront(n, Errors(product, claimed, draw), Errors(product[1..], claimed[1..], draw[1..]));
    }
  }

  // ----- A wrong product passes at most one of two neighbouring draws

  function Flip(draw: Draw, j: nat): Draw
    requires j < |draw|
  {
    draw[j := !draw[j]]
  }

  lemma {:induction false} DotOfFlip(x: Vector, draw: Draw, j: nat)
    requires |x| == |draw| && j < |draw|
    ensures Dot(x, Numbers(Flip(draw, j))) == Dot(x, Numbers(draw)) + (if draw[j] then -x[j] else x[j])
  {
    var v, w := Numbers(draw), Numbers(Flip(draw, j));
    assert v[1..] == Numbers(draw[1..]);
    if j == 0 {
      assert w[1..] == v[1..];
    } else {
      assert Flip(draw, j)[1..] == Flip(draw[1..], j - 1);
      assert w[1..] == Numbers(Flip(draw[1..], j - 1));
      DotOfFlip(x[1..], draw[1..], j - 1);
    }
  }

  lemma NeighbourFails(a: Matrix, b: Matrix, c: Matrix, n: nat, draw: Draw, i: nat, j: nat)
    requires Conforms(a, b, c, n) && |draw| == n && i < |a| && j < n
    requires Product(a, b, n)[i][j] != c[i][j] && Passes(a, b, c, n, draw)
    ensures !Passes(a, b, c, n, Flip(draw, j))
  {
    var p, other := Product(a, b, n), Flip(draw, j);
    ProductAssociates(a, b, n, Numbers(draw));
    ProductAssociates(a, b, n, Numbers(other));
    DotOfFlip(p[i], draw, j);
    DotOfFlip(c[i], draw, j);
    assert Apply(p, Numbers(draw))[i] == Apply(c, Numbers(draw))[i];
    assert Apply(p, Numbers(other))[i] != Apply(c, Numbers(other))[i];
  }

  lemma WrongEntry(a: Matrix, b: Matrix, c: Matrix, n: nat) returns (i: nat, j: nat)
    requires Conforms(a, b, c, n) && c != Product(a, b, n)
    ensures i < |a| && j < n && Product(a, b, n)[i][j] != c[i][j]
  {
    var p := Product(a, b, n);
    i := DifferAt(p, c);
    j := DifferAt(p[i], c[i]);
  }

  lemma {:induction false} DifferAt<T>(x: seq<T>, y: seq<T>) returns (i: nat)
    requires |x| == |y| && x != y
    ensures i < |x| && x[i] != y[i]
  {
    if x[0] != y[0] {
      i := 0;
    } else {
      assert x == [x[0]] + x[1..] && y == [y[0]] + y[1..];
      i := DifferAt(x[1..], y[1..]);
      i := i + 1;
    }
  }

  // ----- Counting draws

  /** All ways to put one element of `s` in front of one sequence of `ts`. */
  function Prepend<T>(s: set<T>, ts: set<seq<T>>): set<seq<T>> { set x, t | x in s && t in ts :: [x] + t }

  lemma PrependIs<T>(s: set<T>, ts: set<seq<T>>, u: seq<T>)
    ensures u in Prepend(s, ts) <==> u != [] && u[0] in s && u[1..] in ts
  {
    if u != [] { assert u == [u[0]] + u[1..]; }
    if u in Prepend(s, ts) {
      var x, t :| x in s && t in ts && u == [x] + t;
      assert u[1..] == t;
    }
  }

  /** All sequences of `k` elements of `s`. */
  function Tuples<T>(s: set<T>, k: nat): set<seq<T>> {
    if k == 0 then {[]} else Prepend(s, Tuples(s, k - 1))
  }

  function Pow(base: nat, k: nat): nat { if k == 0 then 1 else base * Pow(base, k - 1) }

  lemma {:induction false} TuplesAre<T>(s: set<T>, k: nat, t: seq<T>)
    ensures t in Tuples(s, k) <==> |t| == k && forall x :: x in t ==> x in s
  {
    if k > 0 {
      PrependIs(s, Tuples(s, k - 1), t);
      if t != [] {
        TuplesAre(s, k - 1, t[1..]);
        assert t == [t[0]] + t[1..];
      }
    }
  }

  lemma PrependOneMore<T>(x: T, ts: set<seq<T>>, t: seq<T>)
    requires t !in ts
    ensures |Prepend({x}, ts + {t})| == |Prepend({x}, ts)| + 1
  {
    var a, u := Prepend({x}, ts), [x] + t;
    assert u[1..] == t;
    PrependIs({x}, ts, u);
    forall w
      ensures w in Prepend({x}, ts + {t}) <==> w in a + {u}
    {
      PrependIs({x}, ts + {t}, w);
      PrependIs({x}, ts, w);
      if w != [] { assert w == [w[0]] + w[1..]; }
    }
    assert Prepend({x}, ts + {t}) == a + {u};
  }

  lemma {:induction false} PrependOne<T>(x: T, ts: set<seq<T>>)
    ensures |Prepend({x}, ts)| == |ts|
  {
    if ts == {} {
      assert Prepend({x}, ts) == {};
    } else {
      var t :| t in ts;
      PrependOne(x, ts - {t});
      PrependOneMore(x, ts - {t}, t);
      assert ts == (ts - {t}) + {t};
    }
  }

  lemma PrependSplits<T>(s: set<T>, ts: set<seq<T>>, x: T)
    requires x in s
    ensures |Prepend(s, ts)| == |Prepend(s - {x}, ts)| + |Prepend({x}, ts)|
  {
    var a, b := Prepend(s - {x}, ts), Prepend({x}, ts);
    forall w
      ensures w in Prepend(s, ts) <==> w in a + b
      ensures !(w in a && w in b)
    {
      PrependIs(s, ts, w);
      PrependIs(s - {x}, ts, w);
      PrependIs({x}, ts, w);
    }
    assert Prepend(s, ts) == a + b;
    assert a !! b;
  }

  lemma {:induction false} PrependCount<T>(s: set<T>, ts: set<seq<T>>)
    ensures |Prepend(s, ts)| == |s| * |ts|
  {
    if s == {} {
      assert Prepend(s, ts) == {};
    } else {
      var x :| x in s;
      PrependCount(s - {x}, ts);
      PrependOne(x, ts);
      PrependSplits(s, ts, x);
      assert |s| == |s - {x}| + 1;
      assert |s| * |ts| == |s - {x}| * |ts| + |ts|;
    }
  }

  lemma {:induction false} TuplesCount<T>(s: set<T>, k: nat)
    ensures |Tuples(s, k)| == Pow(|s|, k)
  {
    if k > 0 {
      TuplesCount(s, k - 1);
      PrependCount(s, Tuples(s, k - 1));
    }
  }

  /** All 2^n draws of one trial. */
  function AllDraws(n: nat): set<Draw> { Tuples({false, true}, n) }

  lemma DrawsAre(n: nat, draw: Draw)
    ensures draw in AllDraws(n) <==> |draw| == n
  {
    TuplesAre({false, true}, n, draw);
    forall x | x in draw
      ensures x in {false, true}
    {
      if x { assert true in {false, true}; }
    }
  }

  ghost function PassingDraws(a: Matrix, b: Matrix, c: Matrix, n: nat): set<Draw>
    requires Conforms(a, b, c, n)
  {
    set draw | draw in AllDraws(n) && |draw| == n && Passes(a, b, c, n, draw)
  }

  lemma {:induction false} FlippedCount(draws: set<Draw>, others: set<Draw>, n: nat, j: nat)
    requires j < n && forall draw :: draw in draws ==> |draw| == n && Flip(draw, j) in others
    ensures |draws| <= |others|
    decreases |draws|
  {
    if draws != {} {
      var draw :| draw in draws;
      var rest, target := draws - {draw}, Flip(draw, j);
      forall d | d in rest
        ensures |d| == n && Flip(d, j) in others - {target}
      {
        assert Flip(Flip(d, j), j) == d && Flip(target, j) == draw;
      }
      FlippedCount(rest, others - {target}, n, j);
    }
  }

  /** At least half of all draws catch a wrong product. */
  lemma HalfCatchIt(a: Matrix, b: Matrix, c: Matrix, n: nat)
    requires Conforms(a, b, c, n) && c != Product(a, b, n)
    ensures n > 0 && |AllDraws(n)| == Pow(2, n) && |PassingDraws(a, b, c, n)| <= Pow(2, n - 1)
  {
    var i, j := WrongEntry(a, b, c, n);
    var passing, failing := PassingDraws(a, b, c, n), AllDraws(n) - PassingDraws(a, b, c, n);
    forall draw | draw in passing
      ensures |draw| == n && Flip(draw, j) in failing
    {
      NeighbourFails(a, b, c, n, draw, i, j);
      DrawsAre(n, Flip(draw, j));
    }
    FlippedCount(passing, failing, n, j);
    AllDrawsCount(n);
    Complement(passing, AllDraws(n));
  }

  lemma AllDrawsCount(n: nat)
    ensures |AllDraws(n)| == Pow(2, n)
  {
    TuplesCount({false, true}, n);
    assert |{false, true}| == 2;
  }

  lemma Complement<T>(part: set<T>, whole: set<T>)
    requires part <= whole
    ensures |part| + |whole - part| == |whole|
  {
    assert part + (whole - part) == whole;
  }

  /** All sequences of draws that pass all of `k` trials. */
  ghost function PassingRuns(a: Matrix, b: Matrix, c: Matrix, n: nat, k: nat): set<seq<Draw>>
    requires Conforms(a, b, c, n)
  {
    set draws | draws in Tuples(AllDraws(n), k) && forall draw :: draw in draws ==> draw in PassingDraws(a, b, c, n)
  }

  lemma TimesMonotone(x: nat, y: nat, a: nat, b: nat)
    requires x <= y && a <= b
    ensures x * a <= y * b
  {
    assert x * a <= y * a;
    assert y * a <= y * b;
  }

  lemma {:induction false} PowMonotone(x: nat, y: nat, k: nat)
    requires x <= y
    ensures Pow(x, k) <= Pow(y, k)
  {
    if k > 0 {
      PowMonotone(x, y, k - 1);
      TimesMonotone(x, y, Pow(x, k - 1), Pow(y, k - 1));
    }
  }

  lemma Rearrange(x: nat, p: nat, q: nat)
    ensures (2 * x) * (p * q) == (2 * p) * (x * q)
  {
  }

  lemma {:induction false} PowOfHalf(x: nat, k: nat)
    ensures Pow(2 * x, k) == Pow(2, k) * Pow(x, k)
  {
    if k > 0 {
      PowOfHalf(x, k - 1);
      Rearrange(x, Pow(2, k - 1), Pow(x, k - 1));
    }
  }

  /** A wrong product survives `k` trials on at most one in 2^k of all (2^n)^k sequences of draws. */
  lemma DetectionBound(a: Matrix, b: Matrix, c: Matrix, n: nat, k: nat)
    requires Conforms(a, b, c, n) && c != Product(a, b, n)
    ensures |Tuples(AllDraws(n), k)| == Pow(Pow(2, n), k)
    ensures n > 0 && |PassingRuns(a, b, c, n, k)| <= Pow(Pow(2, n - 1), k)
    ensures Pow(2, k) * |PassingRuns(a, b, c, n, k)| <= |Tuples(AllDraws(n), k)|
  {
    var passing := PassingDraws(a, b, c, n);
    HalfCatchIt(a, b, c, n);
    TuplesCount(AllDraws(n), k);
    forall draws
      ensures draws in PassingRuns(a, b, c, n, k) <==> draws in Tuples(passing, k)
    {
      TuplesAre(AllDraws(n), k, draws);
      TuplesAre(passing, k, draws);
    }
    assert PassingRuns(a, b, c, n, k) == Tuples(passing, k);
    TuplesCount(passing, k);
    PowMonotone(|passing|, Pow(2, n - 1), k);
    PowOfHalf(Pow(2, n - 1), k);
    AtMost(Pow(2, k), |PassingRuns(a, b, c, n, k)|, Pow(Pow(2, n - 1), k));
  }

  lemma AtMost(f: nat, x: nat, y: nat)
    requires x <= y
    ensures f * x <= f * y
  {
  }

  /** A correct product survives all sequences of draws. */
  lemma NeverRejectsCorrect(a: Matrix, b: Matrix, c: Matrix, n: nat, k: nat)
    requires Conforms(a, b, c, n) && c == Product(a, b, n)
    ensures PassingRuns(a, b, c, n, k) == Tuples(AllDraws(n), k)
  {
    forall draws | draws in Tuples(AllDraws(n), k)
      ensures draws in PassingRuns(a, b, c, n, k)
    {
      TuplesAre(AllDraws(n), k, draws);
      forall draw | draw in draws
        ensures draw in PassingDraws(a, b, c, n)
      {
        DrawsAre(n, draw);
        CorrectProductPasses(a, b, c, n, draw);
      }
    }
  }
}
