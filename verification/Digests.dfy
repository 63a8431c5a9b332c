/** Fixed-length digests, and what it means to exhibit a collision. Hash functions are parameters:
    nothing is assumed of them but the length of their output. */
module Digests {
  import opened ByteStrings

  /** siphash13_128. */
  type Digest16 = d: Bytes | |d| == 16 witness seq(16, _ => 0)

  /** SHA-256. */
  type Digest32 = d: Bytes | |d| == 32 witness seq(32, _ => 0)

  /** Two different pairs with one hash. */
  datatype PairCollision<D> = PairCollision(left: (D, D), right: (D, D))

  ghost predicate Collides<D>(h: (D, D) -> D, c: PairCollision<D>) {
    c.left != c.right && h(c.left.0, c.left.1) == h(c.right.0, c.right.1)
  }

  /** Two different messages with one hash. */
  ghost predicate MessagesCollide<D>(hash: Bytes -> D, m: Bytes, n: Bytes) {
    m != n && hash(m) == hash(n)
  }

  function Concatenated(a: Bytes, b: Bytes): Bytes { a + b }

  /** `h` of tap_reader/src/commitment.rs: the hash of the two digests one after the other. */
  function Epoch(hash: Bytes -> Digest16): (Digest16, Digest16) -> Digest16 {
    (a: Digest16, b: Digest16) => hash(Concatenated(a, b))
  }

  /** `h` of weight_transport.py. */
  function Manifest(hash: Bytes -> Digest32): (Digest32, Digest32) -> Digest32 {
    (a: Digest32, b: Digest32) => hash(Concatenated(a, b))
  }

  lemma SameLengthConcatenation(a: Bytes, b: Bytes, c: Bytes, d: Bytes)
    requires |a| == |c| && a + b == c + d
    ensures a == c && b == d
  {
    assert a == (a + b)[..|a|] && c == (c + d)[..|c|];
    assert b == (a + b)[|a|..] && d == (c + d)[|c|..];
  }

  /** The first digest comes first. */
  lemma EpochHashes(hash: Bytes -> Digest16, a: Digest16, b: Digest16)
    ensures Epoch(hash)(a, b) == hash(a[..] + b[..])
  {
    assert Concatenated(a, b) == a[..] + b[..];
  }

  lemma ManifestHashes(hash: Bytes -> Digest32, a: Digest32, b: Digest32)
    ensures Manifest(hash)(a, b) == hash(a[..] + b[..])
  {
    assert Concatenated(a, b) == a[..] + b[..];
  }

  /** A collision of pairs of digests is a collision of the underlying hash on 32-byte messages. */
  lemma EpochCollision(hash: Bytes -> Digest16, c: PairCollision<Digest16>)
    requires Collides(Epoch(hash), c)
    ensures MessagesCollide(hash, c.left.0 + c.left.1, c.right.0 + c.right.1)
  {
    assert Concatenated(c.left.0, c.left.1) == c.left.0 + c.left.1;
    assert Concatenated(c.right.0, c.right.1) == c.right.0 + c.right.1;
    if c.left.0 + c.left.1 == c.right.0 + c.right.1 {
      SameLengthConcatenation(c.left.0, c.left.1, c.right.0, c.right.1);
    }
  }

  lemma ManifestCollision(hash: Bytes -> Digest32, c: PairCollision<Digest32>)
    requires Collides(Manifest(hash), c)
    ensures MessagesCollide(hash, c.left.0 + c.left.1, c.right.0 + c.right.1)
  {
    assert Concatenated(c.left.0, c.left.1) == c.left.0 + c.left.1;
    assert Concatenated(c.right.0, c.right.1) == c.right.0 + c.right.1;
    if c.left.0 + c.left.1 == c.right.0 + c.right.1 {
      SameLengthConcatenation(c.left.0, c.left.1, c.right.0, c.right.1);
    }
  }
}
