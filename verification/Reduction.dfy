/** Canonical and chunked reductions (reduction_order.py) over an arbitrary operation: rounding
    addition is one, exact addition another. */
module Reduction {
  import opened ByteStrings
  import opened Powers

  type Op<!T> = (T, T) -> T

  /** `buf[0::2] + buf[1::2]`. */
  function PairUp<T>(op: Op<T>, buf: seq<T>): (half: seq<T>)
    ensures |half| == |buf| / 2
  {
    seq(|buf| / 2, i requires 0 <= i < |buf| / 2 => op(buf[2 * i], buf[2 * i + 1]))
  }

  /** The balanced binary tree over 2^d leaves. */
  function Tree<T>(op: Op<T>, buf: seq<T>, d: nat): T
    requires |buf| == Pow2(d)
  {
    if d == 0 then buf[0] else op(Tree(op, buf[..Pow2(d - 1)], d - 1), Tree(op, buf[Pow2(d - 1)..], d - 1))
  }

  function Padded<T>(x: seq<T>, zero: T, n: nat): (p: seq<T>)
    requires n >= |x|
    ensures |p| == n
  {
    x + seq(n - |x|, _ => zero)
  }

  /** The least d with 2^d >= n. */
  function Levels(n: nat): (d: nat)
    ensures Pow2(d) >= n && (d > 0 ==> Pow2(d - 1) < n)
  {
    LevelsFrom(n, 0)
  }

  function LevelsFrom(n: nat, d: nat): (e: nat)
    requires d > 0 ==> Pow2(d - 1) < n
    ensures d <= e && Pow2(e) >= n && (e > 0 ==> Pow2(e - 1) < n)
    decreases n - Pow2(d)
  {
    if Pow2(d) >= n then d else LevelsFrom(n, d + 1)
  }

  /** The reduction that is the same whatever the context. */
  function Canonical<T>(op: Op<T>, zero: T, x: seq<T>): T {
    Tree(op, Padded(x, zero, Pow2(Levels(|x|))), Levels(|x|))
  }

  method FixedTreeSum<T>(op: Op<T>, zero: T, x: seq<T>) returns (sum: T)
    ensures sum == Canonical(op, zero, x)
  {
    var paddedLen := 1;
    ghost var d: nat := 0;
    while paddedLen < |x|
      invariant paddedLen == Pow2(d) && (d > 0 ==> Pow2(d - 1) < |x|)
      decreases |x| - paddedLen
    {
      paddedLen := paddedLen * 2;
      d := d + 1;
    }
    LevelsUnique(|x|, d);
    sum := ReducePairs(op, Padded(x, zero, paddedLen), d);
  }

  /** The loop that halves the buffer. */
  method ReducePairs<T>(op: Op<T>, given: seq<T>, ghost levels: nat) returns (sum: T)
    requires |given| == Pow2(levels)
    ensures sum == Tree(op, given, levels)
  {
    var buf := given;
    ghost var d := levels;
    while |buf| > 1
      invariant |buf| == Pow2(d) && Tree(op, buf, d) == Tree(op, given, levels)
      decreases |buf|
    {
      OneRound(op, buf, d);
      buf := PairUp(op, buf);
      d := d - 1;
    }
    sum := buf[0];
  }

  lemma OneRound<T>(op: Op<T>, buf: seq<T>, d: nat)
    requires |buf| == Pow2(d) && |buf| > 1
    ensures d > 0 && |PairUp(op, buf)| == Pow2(d - 1) && Tree(op, PairUp(op, buf), d - 1) == Tree(op, buf, d)
    ensures |PairUp(op, buf)| < |buf|
  {
    TreeOfPairs(op, buf, d);
  }

  lemma {:induction false} Pow2Monotone(d: nat, e: nat)
    requires d <= e
    ensures Pow2(d) <= Pow2(e)
    decreases e - d
  {
    if d < e { Pow2Monotone(d, e - 1); }
  }

  lemma LevelsUnique(n: nat, d: nat)
    requires Pow2(d) >= n && (d > 0 ==> Pow2(d - 1) < n)
    ensures Levels(n) == d
  {
    var e := Levels(n);
    if d < e { Pow2Monotone(d, e - 1); }
    if e < d { Pow2Monotone(e, d - 1); }
  }

  lemma PairsOfHalves<T>(op: Op<T>, a: seq<T>, b: seq<T>)
    requires |a| % 2 == 0
    ensures PairUp(op, a + b) == PairUp(op, a) + PairUp(op, b)
  {
    var p, q := PairUp(op, a + b), PairUp(op, a) + PairUp(op, b);
    assert |p| == |q|;
    forall i | 0 <= i < |p|
      ensures p[i] == q[i]
    {
      if i < |a| / 2 {
        assert (a + b)[2 * i] == a[2 * i] && (a + b)[2 * i + 1] == a[2 * i + 1];
      } else {
        var j := i - |a| / 2;
        assert (a + b)[2 * i] == b[2 * j] && (a + b)[2 * i + 1] == b[2 * j + 1];
      }
    }
  }

  /** One round of pairing leaves the tree's value. */
  lemma {:induction false} TreeOfPairs<T>(op: Op<T>, buf: seq<T>, d: nat)
    requires d > 0 && |buf| == Pow2(d)
    ensures |PairUp(op, buf)| == Pow2(d - 1) && Tree(op, PairUp(op, buf), d - 1) == Tree(op, buf, d)
  {
    var h := Pow2(d - 1);
    if d == 1 {
      assert Tree(op, buf[..1], 0) == buf[0] && Tree(op, buf[1..], 0) == buf[1];
    } else {
      var a, b := buf[..h], buf[h..];
      TreeOfPairs(op, a, d - 1);
      TreeOfPairs(op, b, d - 1);
      assert buf == a + b;
      PairsOfHalves(op, a, b);
      var p := PairUp(op, buf);
      assert p[..Pow2(d - 2)] == PairUp(op, a) && p[Pow2(d - 2)..] == PairUp(op, b);
    }
  }

  ghost predicate RightUnit<T(!new)>(op: Op<T>, zero: T) { forall x: T :: op(x, zero) == x }

  lemma {:induction false} TreeOfZeros<T(!new)>(op: Op<T>, zero: T, d: nat)
    requires RightUnit(op, zero)
    ensures Tree(op, seq(Pow2(d), _ => zero), d) == zero
  {
    if d > 0 {
      TreeOfZeros(op, zero, d - 1);
      var z := seq(Pow2(d), _ => zero);
      assert z[..Pow2(d - 1)] == seq(Pow2(d - 1), _ => zero) == z[Pow2(d - 1)..];
    }
  }

  /** Any power of two that is large enough will do: padding further changes nothing, however the
      operation rounds, as long as adding zero on the right leaves a value as it is. */
  lemma {:induction false} PaddingIndependent<T(!new)>(op: Op<T>, zero: T, x: seq<T>, d: nat)
    requires RightUnit(op, zero) && Pow2(d) >= |x|
    ensures Tree(op, Padded(x, zero, Pow2(d)), d) == Canonical(op, zero, x)
    decreases d
  {
    if d > 0 && Pow2(d - 1) >= |x| {
      PaddingIndependent(op, zero, x, d - 1);
      var p := Padded(x, zero, Pow2(d));
      assert p[..Pow2(d - 1)] == Padded(x, zero, Pow2(d - 1));
      assert p[Pow2(d - 1)..] == seq(Pow2(d - 1), _ => zero);
      TreeOfZeros(op, zero, d - 1);
    } else {
      LevelsUnique(|x|, d);
    }
  }

  // ----- Chunked sums

  function Fold<T>(op: Op<T>, start: T, x: seq<T>): T {
    if x == [] then start else op(Fold(op, start, x[..|x| - 1]), x[|x| - 1])
  }

  function Least(a: nat, b: nat): nat { if a <= b then a else b }

  function ChunkTotals<T>(op: Op<T>, zero: T, x: seq<T>, size: nat): seq<T>
    requires size > 0
  {
    if x == [] then []
    else [Fold(op, zero, x[..Least(size, |x|)])] + ChunkTotals(op, zero, x[Least(size, |x|)..], size)
  }

  function ChunkedTotal<T>(op: Op<T>, zero: T, x: seq<T>, size: nat): T
    requires size > 0
  {
    Fold(op, zero, ChunkTotals(op, zero, x, size))
  }

  method SequentialSum<T>(op: Op<T>, zero: T, x: seq<T>) returns (total: T)
    ensures total == Fold(op, zero, x)
  {
    total := zero;
    for i := 0 to |x|
      invariant total == Fold(op, zero, x[..i])
    {
      assert x[..i + 1][..i] == x[..i];
      total := op(total, x[i]);
    }
    assert x[..|x|] == x;
  }

  /** A chunk size of zero is an error of `range`; a negative one gives an empty range. */
  method ChunkedPairwiseSum<T>(op: Op<T>, zero: T, x: seq<T>, chunkSize: int) returns (sum: Option<T>)
    ensures sum == if chunkSize == 0 then None
                   else if chunkSize < 0 then Some(zero)
                   else Some(ChunkedTotal(op, zero, x, chunkSize))
  {
    if chunkSize == 0 { return None; }
    var totals := [];
    if chunkSize > 0 {
      totals := TotalsOfChunks(op, zero, x, chunkSize);
    }
    var result := SequentialSum(op, zero, totals);
    sum := Some(result);
  }

  /** The totals still to come from `start` on. */
  function TotalsFrom<T>(op: Op<T>, zero: T, x: seq<T>, size: nat, start: nat): seq<T>
    requires size > 0
  {
    ChunkTotals(op, zero, x[Least(start, |x|)..], size)
  }

  /** The loop over `range(0, n, chunk_size)`. */
  method TotalsOfChunks<T>(op: Op<T>, zero: T, x: seq<T>, size: nat) returns (totals: seq<T>)
    requires size > 0
    ensures totals == ChunkTotals(op, zero, x, size)
  {
    totals := [];
    var start: nat := 0;
    ghost var all := TotalsFrom(op, zero, x, size, 0);
    while start < |x|
      invariant totals + TotalsFrom(op, zero, x, size, start) == all
      decreases |x| - start
    {
      var total := SequentialSum(op, zero, x[start..Least(start + size, |x|)]);
      ChunkStep(op, zero, x, size, start, total);
      MovesOne(totals, total, TotalsFrom(op, zero, x, size, start), TotalsFrom(op, zero, x, size, start + size));
      totals := totals + [total];
      start := start + size;
    }
  }

  lemma ChunkStep<T>(op: Op<T>, zero: T, x: seq<T>, size: nat, start: nat, total: T)
    requires size > 0 && start < |x| && total == Fold(op, zero, x[start..Least(start + size, |x|)])
    ensures TotalsFrom(op, zero, x, size, start) == [total] + TotalsFrom(op, zero, x, size, start + size)
  {
    var rest, end := x[start..], Least(start + size, |x|);
    assert rest[..Least(size, |rest|)] == x[start..end] && rest[Least(size, |rest|)..] == x[end..];
  }

  lemma MovesOne<T>(totals: seq<T>, total: T, rest: seq<T>, later: seq<T>)
    requires rest == [total] + later
    ensures totals + rest == (totals + [total]) + later
  {
  }

  // ----- Where the operation is exact

  /** Associative, and with `zero` as its unit on both sides. */
  ghost predicate Monoid<T(!new)>(op: Op<T>, zero: T) {
    && RightUnit(op, zero)
    && (forall x: T :: op(zero, x) == x)
    && forall x: T, y: T, z: T :: op(op(x, y), z) == op(x, op(y, z))
  }

  lemma {:induction false} FoldAppend<T(!new)>(op: Op<T>, zero: T, a: seq<T>, b: seq<T>)
    requires Monoid(op, zero)
    ensures Fold(op, zero, a + b) == op(Fold(op, zero, a), Fold(op, zero, b))
    decreases |b|
  {
    if b == [] {
      assert a + b == a;
    } else {
      var c := b[..|b| - 1];
      assert (a + b)[..|a + b| - 1] == a + c;
      FoldAppend(op, zero, a, c);
    }
  }

  lemma {:induction false} FoldOfZeros<T(!new)>(op: Op<T>, zero: T, n: nat)
    requires RightUnit(op, zero)
    ensures Fold(op, zero, seq(n, _ => zero)) == zero
  {
    if n > 0 {
      FoldOfZeros(op, zero, n - 1);
      assert seq(n, _ => zero)[..n - 1] == seq(n - 1, _ => zero);
    }
  }

  lemma {:induction false} TreeIsFold<T(!new)>(op: Op<T>, zero: T, buf: seq<T>, d: nat)
    requires Monoid(op, zero) && |buf| == Pow2(d)
    ensures Tree(op, buf, d) == Fold(op, zero, buf)
  {
    if d == 0 {
      assert Fold(op, zero, buf) == op(Fold(op, zero, buf[..0]), buf[0]);
    } else {
      var a, b := buf[..Pow2(d - 1)], buf[Pow2(d - 1)..];
      TreeIsFold(op, zero, a, d - 1);
      TreeIsFold(op, zero, b, d - 1);
      assert buf == a + b;
      FoldAppend(op, zero, a, b);
    }
  }

  lemma {:induction false} ChunksAreFold<T(!new)>(op: Op<T>, zero: T, x: seq<T>, size: nat)
    requires Monoid(op, zero) && size > 0
    ensures ChunkedTotal(op, zero, x, size) == Fold(op, zero, x)
    decreases |x|
  {
    if x != [] {
      var head, tail := x[..Least(size, |x|)], x[Least(size, |x|)..];
      var first := [Fold(op, zero, head)];
      ChunksAreFold(op, zero, tail, size);
      FoldAppend(op, zero, first, ChunkTotals(op, zero, tail, size));
      assert Fold(op, zero, first) == op(Fold(op, zero, first[..0]), first[0]);
      assert x == head + tail;
      FoldAppend(op, zero, head, tail);
    }
  }

  /** For an exact operation every grouping, the canonical tree included, gives the plain sum. */
  lemma ExactReductionsAgree<T(!new)>(op: Op<T>, zero: T, x: seq<T>, size: nat)
    requires Monoid(op, zero) && size > 0
    ensures Canonical(op, zero, x) == Fold(op, zero, x) == ChunkedTotal(op, zero, x, size)
  {
    var n := Pow2(Levels(|x|));
    var zeros := seq(n - |x|, _ => zero);
    TreeIsFold(op, zero, Padded(x, zero, n), Levels(|x|));
    FoldAppend(op, zero, x, zeros);
    FoldOfZeros(op, zero, n - |x|);
    ChunksAreFold(op, zero, x, size);
  }

  /** How the three orders group three addends, for any operation. */
  lemma Groupings<T>(op: Op<T>, zero: T, a: T, b: T, c: T)
    ensures Canonical(op, zero, [a, b, c]) == op(op(a, b), op(c, zero))
    ensures Fold(op, zero, [a, b, c]) == op(op(op(zero, a), b), c)
    ensures ChunkedTotal(op, zero, [a, b, c], 2) == op(op(zero, op(op(zero, a), b)), op(zero, c))
  {
    LevelsUnique(3, 2);
    TreeOfFour(op, a, b, c, zero);
    assert Padded([a, b, c], zero, 4) == [a, b, c, zero];
    FoldOfTwo(op, zero, a, b);
    assert [a, b, c][..2] == [a, b] && [a, b, c][2..] == [c];
    assert [c][..1] == [c] && [c][..0] == [] && [c][1..] == [];
    assert Fold(op, zero, [c]) == op(zero, c);
    assert ChunkTotals(op, zero, [c], 2) == [op(zero, c)] + ChunkTotals(op, zero, [], 2);
    var totals := ChunkTotals(op, zero, [a, b, c], 2);
    assert totals == [op(op(zero, a), b)] + ChunkTotals(op, zero, [c], 2);
    assert totals == [op(op(zero, a), b), op(zero, c)];
    FoldOfTwo(op, zero, op(op(zero, a), b), op(zero, c));
  }

  lemma FoldOfTwo<T>(op: Op<T>, zero: T, a: T, b: T)
    ensures Fold(op, zero, [a, b]) == op(op(zero, a), b)
  {
    assert [a, b][..1] == [a] && [a][..0] == [];
    assert Fold(op, zero, [a]) == op(zero, a);
  }

  lemma TreeOfFour<T>(op: Op<T>, a: T, b: T, c: T, d: T)
    ensures Pow2(2) == 4 && Tree(op, [a, b, c, d], 2) == op(op(a, b), op(c, d))
  {
    assert [a, b, c, d][..2] == [a, b] && [a, b, c, d][2..] == [c, d];
    TreeOfTwo(op, a, b);
    TreeOfTwo(op, c, d);
  }

  lemma TreeOfTwo<T>(op: Op<T>, a: T, b: T)
    ensures Pow2(1) == 2 && Tree(op, [a, b], 1) == op(a, b)
  {
    assert [a, b][..1] == [a] && [a, b][1..] == [b];
    assert Tree(op, [a], 0) == a && Tree(op, [b], 0) == b;
  }

  /** Exact addition of reals is such an operation. */
  lemma RealAdditionIsExact()
    ensures Monoid(Plus(), 0.0)
  {
  }

  function Plus(): Op<real> { (a: real, b: real) => a + b }

  /** So in exact arithmetic both reductions give the plain sum. */
  lemma RealReductionsAgree(x: seq<real>, size: nat)
    requires size > 0
    ensures Canonical(Plus(), 0.0, x) == Fold(Plus(), 0.0, x) == ChunkedTotal(Plus(), 0.0, x, size)
  {
    RealAdditionIsExact();
    ExactReductionsAgree(Plus(), 0.0, x, size);
  }
}
