/** The memory-wipe daemon (wipe_daemon.c) and its verifier (verifier.py): the labelling of the
    dependency graph, the overwrite pass, and the spot checks. The PRF is a parameter. */
module MemoryWipe {
  import opened ByteStrings
  import opened Powers

  const BLOCK: nat := 4096
  const LABEL: nat := 16
  const WORD: nat := 0x1_0000_0000_0000_0000
  const WORD_MASK: nat := 0xFFFF_FFFF_FFFF_FFFF
  const GOLDEN: nat := 0x9E37_79B9_7F4A_7C15
  const MIX1: nat := 0xBF58_476D_1CE4_E5B9
  const MIX2: nat := 0x94D0_49BB_1331_11EB

  type Label = b: Bytes | |b| == 16 witness seq(16, _ => 0)
  type Prf = Bytes -> Label

  // ----- The second parent

  function Xor(a: nat, b: nat): nat
    decreases a + b
  {
    if a == 0 && b == 0 then 0 else (if a % 2 == b % 2 then 0 else 1) + 2 * Xor(a / 2, b / 2)
  }

  function And(a: nat, b: nat): nat
    decreases a
  {
    if a == 0 then 0 else (if a % 2 == 1 && b % 2 == 1 then 1 else 0) + 2 * And(a / 2, b / 2)
  }

  /** The C version: unsigned 64-bit arithmetic wraps. */
  function SecondParent(i: nat): (p: nat)
    ensures i > 0 ==> p < i
  {
    if i < 2 then 0
    else
      var z0 := (i + GOLDEN) % WORD;
      var z1 := (Xor(z0, z0 / 0x4000_0000) * MIX1) % WORD;
      var z2 := (Xor(z1, z1 / 0x800_0000) * MIX2) % WORD;
      Xor(z2, z2 / 0x8000_0000) % i
  }

  /** The Python version: unbounded integers, masked. */
  function SecondParentMasked(i: nat): (p: nat)
    ensures i > 0 ==> p < i
  {
    if i < 2 then 0
    else
      var z0 := And(i + GOLDEN, WORD_MASK);
      var z1 := And(Xor(z0, z0 / 0x4000_0000) * MIX1, WORD_MASK);
      var z2 := And(Xor(z1, z1 / 0x800_0000) * MIX2, WORD_MASK);
      Xor(z2, z2 / 0x8000_0000) % i
  }

  /** The two parents of node 1 are one and the same node. */
  lemma FirstParentsCoincide()
    ensures SecondParent(1) == 0 == 1 - 1
  {
  }

  /** Masking with k ones is reduction modulo 2^k. */
  lemma {:induction false} MaskIsModulo(a: nat, k: nat)
    ensures And(a, Pow2(k) - 1) == a % Pow2(k)
    decreases k
  {
    if k == 0 {
      MaskedByZero(a);
    } else {
      var m := Pow2(k - 1);
      MaskIsModulo(a / 2, k - 1);
      ModuloDoubles(a, m);
      AndWithOdd(a, m);
    }
  }

  lemma AndWithOdd(a: nat, m: nat)
    requires m > 0
    ensures And(a, 2 * m - 1) == a % 2 + 2 * And(a / 2, m - 1)
  {
    assert (2 * m - 1) / 2 == m - 1 && (2 * m - 1) % 2 == 1;
  }

  lemma {:induction false} MaskedByZero(a: nat)
    ensures And(a, 0) == 0
  {
    if a > 0 { MaskedByZero(a / 2); }
  }

  lemma ModuloDoubles(a: nat, m: nat)
    requires m > 0
    ensures a % (2 * m) == a % 2 + 2 * ((a / 2) % m)
  {
    var q, r := (a / 2) / m, (a / 2) % m;
    assert a / 2 == q * m + r;
    assert a == q * (2 * m) + (a % 2 + 2 * r);
    RemainderIs(a, 2 * m, q, a % 2 + 2 * r);
  }

  lemma RemainderIs(a: nat, d: nat, q: nat, r: nat)
    requires d > 0 && r < d && a == q * d + r
    ensures a % d == r
  {
    if a / d < q {
      TimesMonotone(a / d + 1, q, d);
    } else if a / d > q {
      TimesMonotone(q + 1, a / d, d);
    }
  }

  lemma {:induction false} Pow2Sum(a: nat, b: nat)
    ensures Pow2(a + b) == Pow2(a) * Pow2(b)
  {
    if a > 0 { Pow2Sum(a - 1, b); }
  }

  lemma WordIsPow2()
    ensures Pow2(64) == WORD
  {
    assert Pow2(8) == 256;
    Pow2Sum(8, 8);
    assert Pow2(16) == 0x1_0000;
    Pow2Sum(16, 16);
    assert Pow2(32) == 0x1_0000_0000;
    Pow2Sum(32, 32);
  }

  /** The daemon and the verifier derive the same graph. */
  lemma SecondParentsAgree(i: nat)
    ensures SecondParent(i) == SecondParentMasked(i)
  {
    WordIsPow2();
    if i >= 2 {
      var z0 := (i + GOLDEN) % WORD;
      var z1 := (Xor(z0, z0 / 0x4000_0000) * MIX1) % WORD;
      MaskIsModulo(i + GOLDEN, 64);
      MaskIsModulo(Xor(z0, z0 / 0x4000_0000) * MIX1, 64);
      MaskIsModulo(Xor(z1, z1 / 0x800_0000) * MIX2, 64);
    }
  }

  /** Binary digit `k`. */
  function Bit(a: nat, k: nat): nat { a / Pow2(k) % 2 }

  lemma HalfBit(a: nat, k: nat)
    ensures Bit(a, k + 1) == Bit(a / 2, k)
  {
    HalfThenQuotient(a, Pow2(k));
  }

  lemma XorUnfolds(a: nat, b: nat)
    ensures Xor(a, b) % 2 == if a % 2 == b % 2 then 0 else 1
    ensures Xor(a, b) / 2 == Xor(a / 2, b / 2)
  {
  }

  /** Exclusive or, digit by digit. */
  lemma {:induction false} XorBits(a: nat, b: nat, k: nat)
    ensures Bit(Xor(a, b), k) == if Bit(a, k) == Bit(b, k) then 0 else 1
    decreases k
  {
    XorUnfolds(a, b);
    if k > 0 {
      HalfBit(Xor(a, b), k - 1);
      HalfBit(a, k - 1);
      HalfBit(b, k - 1);
      XorBits(a / 2, b / 2, k - 1);
    }
  }

  lemma {:induction false} BitsDetermine(a: nat, b: nat)
    requires forall k: nat :: Bit(a, k) == Bit(b, k)
    ensures a == b
    decreases a + b
  {
    if a != 0 || b != 0 {
      assert Bit(a, 0) == Bit(b, 0);
      forall k: nat
        ensures Bit(a / 2, k) == Bit(b / 2, k)
      {
        HalfBit(a, k);
        HalfBit(b, k);
        assert Bit(a, k + 1) == Bit(b, k + 1);
      }
      BitsDetermine(a / 2, b / 2);
    }
  }

  /** `x` has a binary digit 1 exactly where `a` and `b` differ. */
  ghost predicate IsXor(x: nat, a: nat, b: nat) {
    forall k: nat :: Bit(x, k) == if Bit(a, k) == Bit(b, k) then 0 else 1
  }

  lemma XorIsUnique(x: nat, a: nat, b: nat)
    ensures IsXor(x, a, b) <==> x == Xor(a, b)
  {
    forall k: nat
      ensures Bit(Xor(a, b), k) == if Bit(a, k) == Bit(b, k) then 0 else 1
    {
      XorBits(a, b, k);
    }
    if IsXor(x, a, b) { BitsDetermine(x, Xor(a, b)); }
  }

  /** The mixing in numbers: three exclusive ors with quotients by 2^30, 2^27 and 2^31, two products
      modulo 2^64, and the remainder by the index. */
  lemma SecondParentMixes(i: nat, z0: nat, x0: nat, z1: nat, x1: nat, z2: nat, x2: nat)
    requires i >= 2
    requires z0 == (i + 0x9E37_79B9_7F4A_7C15) % 0x1_0000_0000_0000_0000 && IsXor(x0, z0, z0 / 0x4000_0000)
    requires z1 == (x0 * 0xBF58_476D_1CE4_E5B9) % 0x1_0000_0000_0000_0000 && IsXor(x1, z1, z1 / 0x800_0000)
    requires z2 == (x1 * 0x94D0_49BB_1331_11EB) % 0x1_0000_0000_0000_0000 && IsXor(x2, z2, z2 / 0x8000_0000)
    ensures SecondParent(i) == x2 % i
  {
    XorIsUnique(x0, z0, z0 / 0x4000_0000);
    XorIsUnique(x1, z1, z1 / 0x800_0000);
    XorIsUnique(x2, z2, z2 / 0x8000_0000);
  }

  /** These are a 64-bit word and the shifts by 30, 27 and 31. */
  lemma Shifts()
    ensures Pow2(64) == WORD && Pow2(30) == 0x4000_0000 && Pow2(27) == 0x800_0000 && Pow2(31) == 0x8000_0000
  {
    WordIsPow2();
    assert Pow2(10) == 1024;
    Pow2Sum(10, 10);
    Pow2Sum(20, 10);
    Pow2Sum(20, 7);
    assert Pow2(7) == 128;
  }

  // ----- Labels

  /** Little-endian bytes. */
  function Bytes8(i: nat): (b: Bytes)
    ensures |b| == 8
  {
    LittleEndian(i, 8)
  }

  function LittleEndian(i: nat, n: nat): (b: Bytes)
    ensures |b| == n
  {
    if n == 0 then [] else [i % 0x100] + LittleEndian(i / 0x100, n - 1)
  }

  /** The number that little-endian bytes stand for: the sum of b[k] * 256^k. */
  function Value(b: Bytes): nat {
    if b == [] then 0 else Value(b[..|b| - 1]) + b[|b| - 1] * Pow2(8 * (|b| - 1))
  }

  lemma {:induction false} ValueFromLow(b: Bytes)
    requires b != []
    ensures Value(b) == b[0] + 0x100 * Value(b[1..])
    decreases |b|
  {
    var n := |b| - 1;
    if n == 0 {
      assert b[..0] == [] && b[1..] == [];
    } else {
      ValueFromLow(b[..n]);
      assert b[..n][1..] == b[1..][..n - 1] && b[1..][n - 1] == b[n];
      EightMore(n - 1);
      ShiftTerm(b[n], Pow2(8 * (n - 1)), Pow2(8 * n));
    }
  }

  lemma EightMore(n: nat)
    ensures Pow2(8 * (n + 1)) == 0x100 * Pow2(8 * n)
  {
    Pow2Sum(8, 8 * n);
    assert Pow2(8) == 0x100;
  }

  lemma ShiftTerm(d: nat, low: nat, high: nat)
    requires high == 0x100 * low
    ensures d * high == 0x100 * (d * low)
  {
  }

  /** The bytes read back to the number they were made from. */
  lemma {:induction false} ReadsBack(i: nat, n: nat)
    requires i < Pow2(8 * n)
    ensures Value(LittleEndian(i, n)) == i
    decreases n
  {
    if n > 0 {
      EightMore(n - 1);
      assert i / 0x100 < Pow2(8 * (n - 1));
      ReadsBack(i / 0x100, n - 1);
      var b := LittleEndian(i, n);
      ValueFromLow(b);
      assert b[1..] == LittleEndian(i / 0x100, n - 1);
    }
  }

  lemma {:induction false} ValueDetermines(a: Bytes, b: Bytes)
    requires |a| == |b| && Value(a) == Value(b)
    ensures a == b
    decreases |a|
  {
    if a != [] {
      ValueFromLow(a);
      ValueFromLow(b);
      LowDigits(a[0], Value(a[1..]), b[0], Value(b[1..]));
      ValueDetermines(a[1..], b[1..]);
      assert a == [a[0]] + a[1..] && b == [b[0]] + b[1..];
    }
  }

  lemma LowDigits(x: Byte, u: nat, y: Byte, v: nat)
    requires x + 0x100 * u == y + 0x100 * v
    ensures x == y && u == v
  {
  }

  /** Sixteen bytes: `i` in the first eight, then two times four more. */
  ghost predicate IsMessage(m: Bytes, i: nat, first: Bytes, second: Bytes) {
    |m| == 16 && Value(m[..8]) == i && m[8..12] == first && m[12..16] == second
  }

  /** There is one such message for every index of 64 bits, and only one. */
  lemma MessageIs(m: Bytes, i: nat, first: Bytes, second: Bytes)
    requires i < 0x1_0000_0000_0000_0000 && |first| == |second| == 4
    ensures IsMessage(m, i, first, second) <==> m == Bytes8(i) + first + second
  {
    WordIsPow2();
    ReadsBack(i, 8);
    var made := Bytes8(i) + first + second;
    assert made[..8] == Bytes8(i) && made[8..12] == first && made[12..16] == second;
    if IsMessage(m, i, first, second) {
      ValueDetermines(m[..8], Bytes8(i));
      assert m == m[..8] + m[8..12] + m[12..16];
    }
  }

  /** Messages for different indices are different. */
  lemma MessagesDiffer(m: Bytes, i: nat, n: Bytes, j: nat, a: Bytes, b: Bytes, c: Bytes, d: Bytes)
    requires IsMessage(m, i, a, b) && IsMessage(n, j, c, d) && i != j
    ensures m != n
  {
  }

  const ZEROS: Bytes := [0, 0, 0, 0, 0, 0, 0, 0]

  /** The label stored at the head of block `i`. */
  function Stored(region: Bytes, i: nat): (stored: Bytes)
    requires (i + 1) * BLOCK <= |region|
    ensures |stored| == LABEL
  {
    region[i * BLOCK..i * BLOCK + LABEL]
  }

  /** Where the second parent of a node comes from; the first one is its predecessor. */
  type Graph = nat -> nat

  ghost predicate Earlier(parent: Graph) { forall i: nat :: i > 0 ==> parent(i) < i }

  function DaemonGraph(): (parent: Graph)
    ensures Earlier(parent) && forall i: nat :: parent(i) == SecondParent(i)
  {
    (i: nat) => SecondParent(i)
  }

  function VerifierGraph(): (parent: Graph)
    ensures Earlier(parent) && forall i: nat :: parent(i) == SecondParentMasked(i)
  {
    (i: nat) => SecondParentMasked(i)
  }

  /** `label_node`: the label of block `i` recomputed from the region. */
  function LabelNode(prf: Prf, parent: Graph, i: nat, region: Bytes): Label
    requires Earlier(parent) && (i + 1) * BLOCK <= |region|
  {
    if i == 0 then prf(Bytes8(i) + ZEROS)
    else prf(Bytes8(i) + Stored(region, i - 1)[..4] + Stored(region, parent(i))[..4])
  }

  /** The label of node `i` of the graph, without any region. */
  function GraphLabel(prf: Prf, parent: Graph, i: nat): Label
    requires Earlier(parent)
    decreases i
  {
    if i == 0 then prf(Bytes8(i) + ZEROS)
    else prf(Bytes8(i) + GraphLabel(prf, parent, i - 1)[..4] + GraphLabel(prf, parent, parent(i))[..4])
  }

  ghost predicate Labelled(prf: Prf, parent: Graph, region: Bytes, n: nat)
    requires Earlier(parent) && n * BLOCK <= |region|
  {
    forall i: nat :: i < n ==> Stored(region, i) == GraphLabel(prf, parent, i)
  }

  ghost predicate Verified(prf: Prf, parent: Graph, region: Bytes, i: nat)
    requires Earlier(parent) && (i + 1) * BLOCK <= |region|
  {
    LabelNode(prf, parent, i, region) == Stored(region, i)
  }

  /** The input of the label of block `i`: its index and the first four bytes of the blocks of its two
      parents, or zeros at the start. */
  ghost predicate IsLabelInput(m: Bytes, parent: Graph, region: Bytes, i: nat)
    requires Earlier(parent) && (i + 1) * BLOCK <= |region|
  {
    if i == 0 then IsMessage(m, 0, [0, 0, 0, 0], [0, 0, 0, 0])
    else
      IsMessage(m, i, region[(i - 1) * 4096..(i - 1) * 4096 + 4], region[parent(i) * 4096..parent(i) * 4096 + 4])
  }

  lemma LabelOfInput(prf: Prf, parent: Graph, region: Bytes, i: nat, m: Bytes)
    requires Earlier(parent) && (i + 1) * BLOCK <= |region| && i < 0x1_0000_0000_0000_0000
    requires Labelled(prf, parent, region, i) && IsLabelInput(m, parent, region, i)
    ensures GraphLabel(prf, parent, i) == prf(m)
  {
    if i == 0 {
      MessageIs(m, i, [0, 0, 0, 0], [0, 0, 0, 0]);
      assert Bytes8(i) + [0, 0, 0, 0] + [0, 0, 0, 0] == Bytes8(i) + ZEROS;
    } else {
      var first, second := region[(i - 1) * 4096..(i - 1) * 4096 + 4], region[parent(i) * 4096..parent(i) * 4096 + 4];
      MessageIs(m, i, first, second);
      HeadOfLabel(region, i - 1, first);
      HeadOfLabel(region, parent(i), second);
    }
  }

  /** What a labelled region holds, byte by byte: each label is the PRF of the block's index and of
      four bytes of each parent. */
  lemma LabelsAreDerived(prf: Prf, parent: Graph, region: Bytes, n: nat, i: nat, m: Bytes)
    requires Earlier(parent) && n * BLOCK <= |region| && i < n && i < 0x1_0000_0000_0000_0000
    requires Labelled(prf, parent, region, n) && IsLabelInput(m, parent, region, i)
    ensures region[i * 4096..i * 4096 + 16] == prf(m)
  {
    LabelOfInput(prf, parent, region, i, m);
    assert Stored(region, i) == GraphLabel(prf, parent, i);
  }

  /** The label pass, in place; the rest of every block keeps what it held. */
  method LabelPass(prf: Prf, parent: Graph, region: array<Byte>, nBlocks: nat)
    requires Earlier(parent) && region.Length == nBlocks * BLOCK
    modifies region
    ensures Labelled(prf, parent, region[..], nBlocks)
    ensures forall i: nat, m :: i < nBlocks && i < 0x1_0000_0000_0000_0000 && IsLabelInput(m, parent, region[..], i)
              ==> region[i * 4096..i * 4096 + 16] == prf(m)
    ensures forall p :: 0 <= p < region.Length && p % BLOCK >= LABEL ==> region[p] == old(region[p])
  {
    for i := 0 to nBlocks
      invariant Labelled(prf, parent, region[..], i)
      invariant forall p :: 0 <= p < region.Length && p % BLOCK >= LABEL ==> region[p] == old(region[p])
    {
      var lab := NextLabel(prf, parent, region, i);
      ghost var before := region[..];
      WriteLabel(region, i, lab);
      LabelledOneMore(prf, parent, before, region[..], i);
    }
    forall i: nat, m | i < nBlocks && i < 0x1_0000_0000_0000_0000 && IsLabelInput(m, parent, region[..], i)
      ensures region[i * 4096..i * 4096 + 16] == prf(m)
    {
      LabelsAreDerived(prf, parent, region[..], nBlocks, i, m);
      assert region[..][i * 4096..i * 4096 + 16] == region[i * 4096..i * 4096 + 16];
    }
  }

  /** Folds four bytes of each parent's label, as they stand in the region, into the input. */
  method NextLabel(prf: Prf, parent: Graph, region: array<Byte>, i: nat) returns (lab: Label)
    requires Earlier(parent) && (i + 1) * BLOCK <= region.Length && Labelled(prf, parent, region[..], i)
    ensures lab == GraphLabel(prf, parent, i)
    ensures forall m :: i < 0x1_0000_0000_0000_0000 && IsLabelInput(m, parent, region[..], i) ==> lab == prf(m)
  {
    forall m | i < 0x1_0000_0000_0000_0000 && IsLabelInput(m, parent, region[..], i)
      ensures GraphLabel(prf, parent, i) == prf(m)
    {
      LabelOfInput(prf, parent, region[..], i, m);
    }
    if i == 0 {
      lab := prf(Bytes8(i) + ZEROS);
    } else {
      var p1, p2 := i - 1, parent(i);
      var first, second := region[p1 * BLOCK..p1 * BLOCK + 4], region[p2 * BLOCK..p2 * BLOCK + 4];
      HeadOfLabel(region[..], p1, first);
      HeadOfLabel(region[..], p2, second);
      lab := prf(Bytes8(i) + first + second);
    }
  }

  lemma HeadOfLabel(region: Bytes, i: nat, head: Bytes)
    requires (i + 1) * BLOCK <= |region| && head == region[i * BLOCK..i * BLOCK + 4]
    ensures head == Stored(region, i)[..4]
  {
  }

  method WriteLabel(region: array<Byte>, i: nat, lab: Label)
    requires (i + 1) * BLOCK <= region.Length
    modifies region
    ensures Stored(region[..], i) == lab
    ensures forall j: nat :: j < i ==> Stored(region[..], j) == old(Stored(region[..], j))
    ensures forall p :: 0 <= p < region.Length && p % BLOCK >= LABEL ==> region[p] == old(region[p])
  {
    ghost var before := region[..];
    forall k | 0 <= k < LABEL { region[i * BLOCK + k] := lab[k]; }
    assert forall k :: 0 <= k < LABEL ==> region[i * BLOCK + k] == lab[k];
    forall j: nat | j < i
      ensures Stored(region[..], j) == Stored(before, j)
    {
      assert (j + 1) * BLOCK <= i * BLOCK;
    }
  }

  lemma LabelledOneMore(prf: Prf, parent: Graph, before: Bytes, after: Bytes, i: nat)
    requires Earlier(parent) && |before| == |after| && (i + 1) * BLOCK <= |after| && Labelled(prf, parent, before, i)
    requires Stored(after, i) == GraphLabel(prf, parent, i)
    requires forall j: nat :: j < i ==> Stored(after, j) == Stored(before, j)
    ensures Labelled(prf, parent, after, i + 1)
  {
  }

  /** A region passes the recomputation of every block exactly when it holds the labels of the graph,
      which do not depend on what memory held before. */
  lemma VerifiedExactlyIfLabelled(prf: Prf, parent: Graph, region: Bytes, n: nat)
    requires Earlier(parent) && n * BLOCK <= |region|
    ensures (forall i: nat :: i < n ==> Verified(prf, parent, region, i)) <==> Labelled(prf, parent, region, n)
  {
    if forall i: nat :: i < n ==> Verified(prf, parent, region, i) { VerifiedMeansLabelled(prf, parent, region, n, n); }
  }

  lemma {:induction false} VerifiedMeansLabelled(prf: Prf, parent: Graph, region: Bytes, n: nat, k: nat)
    requires Earlier(parent) && k <= n && n * BLOCK <= |region|
    requires forall i: nat :: i < n ==> Verified(prf, parent, region, i)
    ensures Labelled(prf, parent, region, k)
    decreases k
  {
    if k > 0 {
      VerifiedMeansLabelled(prf, parent, region, n, k - 1);
      assert Verified(prf, parent, region, k - 1);
    }
  }

  lemma {:induction false} SameParentsSameLabels(prf: Prf, parent: Graph, other: Graph, i: nat)
    requires Earlier(parent) && Earlier(other) && forall k: nat :: parent(k) == other(k)
    ensures GraphLabel(prf, parent, i) == GraphLabel(prf, other, i)
    decreases i
  {
    if i > 0 {
      SameParentsSameLabels(prf, parent, other, i - 1);
      SameParentsSameLabels(prf, parent, other, parent(i));
    }
  }

  lemma GraphsAgree(prf: Prf, i: nat)
    ensures GraphLabel(prf, DaemonGraph(), i) == GraphLabel(prf, VerifierGraph(), i)
  {
    forall k: nat
      ensures DaemonGraph()(k) == VerifierGraph()(k)
    {
      SecondParentsAgree(k);
    }
    SameParentsSameLabels(prf, DaemonGraph(), VerifierGraph(), i);
  }

  /** What the daemon writes is what the independent verifier accepts in every block, and nothing
      else is. */
  lemma VerifierAcceptsExactlyDaemonLabels(prf: Prf, region: Bytes, n: nat)
    requires n * BLOCK <= |region|
    ensures (forall i: nat :: i < n ==> Verified(prf, VerifierGraph(), region, i))
       <==> Labelled(prf, DaemonGraph(), region, n)
  {
    VerifiedExactlyIfLabelled(prf, VerifierGraph(), region, n);
    forall i: nat | i < n
      ensures GraphLabel(prf, DaemonGraph(), i) == GraphLabel(prf, VerifierGraph(), i)
    {
      GraphsAgree(prf, i);
    }
  }

  /** Changing the label of any verified block, and nothing outside that block, always makes that
      block fail its own recheck. */
  lemma TamperedLabelFails(prf: Prf, parent: Graph, region: Bytes, tampered: Bytes, i: nat)
    requires Earlier(parent) && |region| == |tampered| && (i + 1) * BLOCK <= |region|
    requires Verified(prf, parent, region, i)
    requires forall p :: 0 <= p < |region| && !(i * BLOCK <= p < (i + 1) * BLOCK) ==> tampered[p] == region[p]
    requires Stored(tampered, i) != Stored(region, i)
    ensures !Verified(prf, parent, tampered, i)
  {
    if i > 0 {
      OtherBlockUnchanged(region, tampered, i, i - 1);
      OtherBlockUnchanged(region, tampered, i, parent(i));
    }
  }

  lemma OtherBlockUnchanged(region: Bytes, tampered: Bytes, i: nat, j: nat)
    requires |region| == |tampered| && (i + 1) * BLOCK <= |region| && j < i
    requires forall p :: 0 <= p < |region| && !(i * BLOCK <= p < (i + 1) * BLOCK) ==> tampered[p] == region[p]
    ensures Stored(tampered, j) == Stored(region, j)
  {
    assert (j + 1) * BLOCK <= i * BLOCK;
  }

  /** The number of nodes on the longest dependency chain that ends in node `i`. */
  function ChainLength(parent: Graph, i: nat): nat
    requires Earlier(parent)
    decreases i
  {
    if i == 0 then 1
    else
      var one, other := ChainLength(parent, i - 1), ChainLength(parent, parent(i));
      1 + if one >= other then one else other
  }

  /** The chain through the predecessors is the longest one, so a region of n blocks has sequential
      depth n. */
  lemma {:induction false} DepthIsBlockCount(parent: Graph, i: nat)
    requires Earlier(parent)
    ensures ChainLength(parent, i) == i + 1
  {
    if i > 0 {
      DepthIsBlockCount(parent, i - 1);
      DepthIsBlockCount(parent, parent(i));
    }
  }

  // ----- Overwriting

  /** The keystream byte at position `p`. */
  function Keystream(prf: Prf, p: nat): Byte { prf(Bytes8(p / 16) + ZEROS)[p % 16] }

  /** `m` is the message for unit `c` of a region: the counter and eight zeros. */
  ghost predicate IsUnit(m: Bytes, c: nat, size: nat) {
    16 * c + 16 <= size && c < 0x1_0000_0000_0000_0000 && IsMessage(m, c, [0, 0, 0, 0], [0, 0, 0, 0])
  }

  /** Unit by unit, a region that holds the keystream holds the PRF of its own counter. */
  lemma UnitsAreKeystream(prf: Prf, region: Bytes)
    requires forall p :: 0 <= p < |region| ==> region[p] == Keystream(prf, p)
    ensures forall c: nat, m :: IsUnit(m, c, |region|) ==> region[16 * c..16 * c + 16] == prf(m)
  {
    forall c: nat, m | IsUnit(m, c, |region|)
      ensures region[16 * c..16 * c + 16] == prf(m)
    {
      MessageIs(m, c, [0, 0, 0, 0], [0, 0, 0, 0]);
      assert m == Bytes8(c) + ZEROS;
      forall k | 0 <= k < 16
        ensures region[16 * c + k] == prf(m)[k]
      {
        assert (16 * c + k) / 16 == c && (16 * c + k) % 16 == k;
      }
    }
  }

  /** Every byte, not just the labels. */
  method OverwritePass(prf: Prf, region: array<Byte>, nBlocks: nat)
    requires region.Length == nBlocks * BLOCK
    modifies region
    ensures forall p :: 0 <= p < region.Length ==> region[p] == Keystream(prf, p)
    ensures forall c: nat, m :: IsUnit(m, c, region.Length) ==> region[16 * c..16 * c + 16] == prf(m)
  {
    for i := 0 to nBlocks
      invariant forall p :: 0 <= p < i * BLOCK ==> region[p] == Keystream(prf, p)
    {
      var off := 0;
      while off < BLOCK
        invariant off <= BLOCK && off % 16 == 0
        invariant forall p :: 0 <= p < i * BLOCK + off ==> region[p] == Keystream(prf, p)
        decreases BLOCK - off
      {
        var c := i * (BLOCK / 16) + off / 16;
        var ks := prf(Bytes8(c) + ZEROS);
        WriteKeystream(prf, region, i * BLOCK + off, c, ks);
        off := off + 16;
      }
    }
    UnitsAreKeystream(prf, region[..]);
    assert region[..] == region[0..region.Length];
    forall c: nat, m | IsUnit(m, c, region.Length)
      ensures region[16 * c..16 * c + 16] == prf(m)
    {
      assert region[..][16 * c..16 * c + 16] == region[16 * c..16 * c + 16];
    }
  }

  method WriteKeystream(prf: Prf, region: array<Byte>, at: nat, c: nat, ks: Label)
    requires at == 16 * c && at + 16 <= region.Length && ks == prf(Bytes8(c) + ZEROS)
    modifies region
    ensures forall p :: at <= p < at + 16 ==> region[p] == Keystream(prf, p)
    ensures forall p :: 0 <= p < region.Length && !(at <= p < at + 16) ==> region[p] == old(region[p])
  {
    forall k | 0 <= k < 16 { region[at + k] := ks[k]; }
    forall p | at <= p < at + 16
      ensures region[p] == Keystream(prf, p)
    {
      assert p / 16 == c && p % 16 == p - at;
      assert region[at + (p - at)] == ks[p - at];
    }
  }

  /** The whole daemon: what the region ends with is a function of the position alone, whatever
      memory held before. */
  method Wipe(prf: Prf, region: array<Byte>, nBlocks: nat)
    requires region.Length == nBlocks * BLOCK
    modifies region
    ensures region[..] == seq(nBlocks * BLOCK, p requires 0 <= p < nBlocks * BLOCK => Keystream(prf, p))
    ensures forall c: nat, m :: IsUnit(m, c, region.Length) ==> region[16 * c..16 * c + 16] == prf(m)
  {
    LabelPass(prf, DaemonGraph(), region, nBlocks);
    OverwritePass(prf, region, nBlocks);
  }

  // ----- The verifier

  /** `samples` and `victim` stand for the random draws. */
  method VerifyRegion(prf: Prf, nBlocks: nat, samples: seq<nat>, victim: nat) returns (ok: nat, tamperDetected: bool)
    requires 1 <= victim < nBlocks && forall i :: 0 <= i < |samples| ==> samples[i] < nBlocks
    ensures ok == |samples| && tamperDetected
  {
    ok, tamperDetected := CheckRegion(prf, VerifierGraph(), nBlocks, samples, victim);
  }

  method CheckRegion(prf: Prf, parent: Graph, nBlocks: nat, samples: seq<nat>, victim: nat)
    returns (ok: nat, tamperDetected: bool)
    requires Earlier(parent) && 1 <= victim < nBlocks && forall i :: 0 <= i < |samples| ==> samples[i] < nBlocks
    ensures ok == |samples| && tamperDetected
  {
    var region := new Byte[nBlocks * BLOCK](_ => 0xa5);
    LabelPass(prf, parent, region, nBlocks);
    VerifiedExactlyIfLabelled(prf, parent, region[..], nBlocks);
    ok := 0;
    for t := 0 to |samples|
      invariant ok == t
      invariant forall i: nat :: i < nBlocks ==> Verified(prf, parent, region[..], i)
    {
      var i := samples[t];
      assert Verified(prf, parent, region[..], i);
      if LabelNode(prf, parent, i, region[..]) == Stored(region[..], i) { ok := ok + 1; }
    }
    tamperDetected := TamperTest(prf, parent, region, victim);
  }

  method TamperTest(prf: Prf, parent: Graph, region: array<Byte>, victim: nat) returns (detected: bool)
    requires Earlier(parent) && (victim + 1) * BLOCK <= region.Length && Verified(prf, parent, region[..], victim)
    modifies region
    ensures detected && region[..] == old(region[..])
  {
    ghost var original := region[..];
    var kept := region[victim * BLOCK];
    region[victim * BLOCK] := 0xff - kept;
    assert Stored(region[..], victim)[0] != Stored(original, victim)[0];
    TamperedLabelFails(prf, parent, original, region[..], victim);
    detected := LabelNode(prf, parent, victim, region[..]) != Stored(region[..], victim);
    region[victim * BLOCK] := kept;
  }
}
