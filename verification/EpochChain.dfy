/** The hash chain over epoch roots (tap_reader/src/commitment.rs). */
module EpochChains {
  import opened Digests

  datatype Entry<D> = Entry(epochNumber: nat, root: D, headAfter: D)

  /** The head reached from `zero` by folding in the roots of `entries`. */
  function Head<D>(h: (D, D) -> D, zero: D, entries: seq<Entry<D>>): D {
    if entries == [] then zero
    else h(Head(h, zero, entries[..|entries| - 1]), entries[|entries| - 1].root)
  }

  function HeadAfter<D>(h: (D, D) -> D, zero: D, entries: seq<Entry<D>>, i: nat): D
    requires i < |entries|
  {
    Head(h, zero, entries[..i + 1])
  }

  /** Every stored head is the head at that point, and `head` is the one at the end. */
  ghost predicate Consistent<D>(h: (D, D) -> D, zero: D, entries: seq<Entry<D>>, head: D) {
    && (forall i :: 0 <= i < |entries| ==> entries[i].headAfter == HeadAfter(h, zero, entries, i))
    && head == Head(h, zero, entries)
  }

  class EpochChain<D(==)> {
    const zero: D
    var head: D
    var entries: seq<Entry<D>>

    constructor (zero: D)
      ensures this.zero == zero && head == zero && entries == []
    {
      this.zero, head, entries := zero, zero, [];
    }

    method Commit(h: (D, D) -> D, epochNumber: nat, epochRoot: D)
      modifies this
      ensures entries == old(entries) + [Entry(epochNumber, epochRoot, h(old(head), epochRoot))]
      ensures head == h(old(head), epochRoot)
      ensures old(Consistent(h, zero, entries, head)) ==> Consistent(h, zero, entries, head)
    {
      var newHead := h(head, epochRoot);
      ghost var before := entries;
      entries := entries + [Entry(epochNumber, epochRoot, newHead)];
      head := newHead;
      assert entries[..|before|] == before;
      forall i | 0 <= i < |before|
        ensures HeadAfter(h, zero, entries, i) == HeadAfter(h, zero, before, i)
      {
        assert entries[..i + 1] == before[..i + 1];
      }
      assert entries[..|entries|] == entries;
    }

    method Verify(h: (D, D) -> D) returns (ok: bool)
      ensures ok <==> Consistent(h, zero, entries, head)
    {
      var running := zero;
      for i := 0 to |entries|
        invariant running == Head(h, zero, entries[..i])
        invariant forall j :: 0 <= j < i ==> entries[j].headAfter == HeadAfter(h, zero, entries, j)
      {
        assert entries[..i + 1][..i] == entries[..i];
        running := h(running, entries[i].root);
        if running != entries[i].headAfter { return false; }
      }
      assert entries[..|entries|] == entries;
      ok := running == head;
    }
  }

  /** What comparing two chains from their common head backwards ends with. */
  datatype Finding<D> =
    | Same
    | Collision(pairs: PairCollision<D>)
    | HashesToZero(pair: (D, D))

  function LastStep<D>(h: (D, D) -> D, zero: D, entries: seq<Entry<D>>): (D, D)
    requires entries != []
  {
    (Head(h, zero, entries[..|entries| - 1]), entries[|entries| - 1].root)
  }

  function Compare<D(==)>(h: (D, D) -> D, zero: D, a: seq<Entry<D>>, b: seq<Entry<D>>): Finding<D>
    decreases |a|
  {
    if a == [] && b == [] then Same
    else if a == [] then HashesToZero(LastStep(h, zero, b))
    else if b == [] then HashesToZero(LastStep(h, zero, a))
    else if LastStep(h, zero, a) != LastStep(h, zero, b) then
      Collision(PairCollision(LastStep(h, zero, a), LastStep(h, zero, b)))
    else Compare(h, zero, a[..|a| - 1], b[..|b| - 1])
  }

  function Roots<D>(entries: seq<Entry<D>>): seq<D> { seq(|entries|, i requires 0 <= i < |entries| => entries[i].root) }

  lemma {:induction false} HeadBinds<D>(h: (D, D) -> D, zero: D, a: seq<Entry<D>>, b: seq<Entry<D>>)
    requires Head(h, zero, a) == Head(h, zero, b)
    ensures match Compare(h, zero, a, b)
            case Same => Roots(a) == Roots(b)
            case Collision(pairs) => Collides(h, pairs)
            case HashesToZero(pair) => |a| != |b| && h(pair.0, pair.1) == zero
    decreases |a|
  {
    if a != [] && b != [] && LastStep(h, zero, a) == LastStep(h, zero, b) {
      var a', b' := a[..|a| - 1], b[..|b| - 1];
      HeadBinds(h, zero, a', b');
      assert Roots(a) == Roots(a') + [a[|a| - 1].root];
      assert Roots(b) == Roots(b') + [b[|b| - 1].root];
    }
  }

  lemma {:induction false} RootsFixHeads<D>(h: (D, D) -> D, zero: D, a: seq<Entry<D>>, b: seq<Entry<D>>)
    requires Roots(a) == Roots(b)
    ensures Head(h, zero, a) == Head(h, zero, b)
    decreases |a|
  {
    assert |a| == |Roots(a)| == |Roots(b)| == |b|;
    if a != [] {
      var a', b' := a[..|a| - 1], b[..|b| - 1];
      assert Roots(a') == Roots(a)[..|a| - 1] && Roots(b') == Roots(b)[..|b| - 1];
      RootsFixHeads(h, zero, a', b');
      assert Roots(a)[|a| - 1] == Roots(b)[|b| - 1];
    }
  }

  /** Two chains that verify with one head hold the same roots and the same stored heads in the
      same order, or comparing them exhibits a collision; chains of different lengths can only
      share a head if some pair hashes to the initial head. */
  lemma ChainBinds<D>(h: (D, D) -> D, zero: D, a: seq<Entry<D>>, b: seq<Entry<D>>, head: D)
    requires Consistent(h, zero, a, head) && Consistent(h, zero, b, head)
    ensures match Compare(h, zero, a, b)
            case Same =>
              |a| == |b| && forall i :: 0 <= i < |a| ==> a[i].root == b[i].root && a[i].headAfter == b[i].headAfter
            case Collision(pairs) => Collides(h, pairs)
            case HashesToZero(pair) => |a| != |b| && h(pair.0, pair.1) == zero
  {
    HeadBinds(h, zero, a, b);
    if Compare(h, zero, a, b).Same? {
      assert |a| == |Roots(a)| == |Roots(b)| == |b|;
      forall i | 0 <= i < |a|
        ensures a[i].root == b[i].root && a[i].headAfter == b[i].headAfter
      {
        assert Roots(a)[i] == Roots(b)[i];
        assert Roots(a[..i + 1]) == Roots(a)[..i + 1] == Roots(b)[..i + 1] == Roots(b[..i + 1]);
        RootsFixHeads(h, zero, a[..i + 1], b[..i + 1]);
      }
    }
  }

  /** Replacing one stored root and nothing else is noticed, unless old and new root collide. */
  lemma TamperedRootIsNoticed<D>(h: (D, D) -> D, zero: D, a: seq<Entry<D>>, head: D, at: nat, root: D)
    requires Consistent(h, zero, a, head) && at < |a| && root != a[at].root
    ensures Consistent(h, zero, a[at := a[at].(root := root)], head)
        ==> Collides(h, PairCollision((Head(h, zero, a[..at]), a[at].root), (Head(h, zero, a[..at]), root)))
  {
    var b := a[at := a[at].(root := root)];
    assert a[..at + 1][..at] == a[..at] == b[..at] == b[..at + 1][..at];
    assert a[at].headAfter == HeadAfter(h, zero, a, at) == h(Head(h, zero, a[..at]), a[at].root);
    if Consistent(h, zero, b, head) {
      assert b[at].headAfter == HeadAfter(h, zero, b, at);
    }
  }
}
