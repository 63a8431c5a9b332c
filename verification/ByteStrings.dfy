/** Byte strings and the substring search that both framing layers share
    (tap_reader/src/reassembly.rs). */
module ByteStrings {

  type Byte = x: int | 0 <= x < 0x100
  type Bytes = seq<Byte>

  datatype Option<+T> = None | Some(value: T)

  const CR: Byte := 0x0d
  const LF: Byte := 0x0a
  const CRLF: Bytes := [CR, LF]
  const LFLF: Bytes := [LF, LF]

  ghost predicate OccursAt(needle: Bytes, haystack: Bytes, at: nat) {
    at + |needle| <= |haystack| && haystack[at..at + |needle|] == needle
  }

  /** `at` is the first place where `needle` occurs in `haystack`. */
  ghost predicate FirstAt(needle: Bytes, haystack: Bytes, at: nat) {
    OccursAt(needle, haystack, at) && forall p: nat :: p < at ==> !OccursAt(needle, haystack, p)
  }

  ghost predicate Absent(needle: Bytes, haystack: Bytes) {
    forall p: nat :: !OccursAt(needle, haystack, p)
  }

  /** The sliding-window search, from offset `start` on. */
  function FindFrom(haystack: Bytes, needle: Bytes, start: nat): (r: Option<nat>)
    ensures r.Some? ==> start <= r.value && OccursAt(needle, haystack, r.value)
    ensures r.Some? ==> forall p: nat :: start <= p < r.value ==> !OccursAt(needle, haystack, p)
    ensures r.None? ==> forall p: nat :: start <= p ==> !OccursAt(needle, haystack, p)
    decreases |haystack| - start
  {
    if start + |needle| > |haystack| then None
    else if haystack[start..start + |needle|] == needle then Some(start)
    else FindFrom(haystack, needle, start + 1)
  }

  function FindSubslice(haystack: Bytes, needle: Bytes): (r: Option<nat>)
    requires needle != []
    ensures r.Some? ==> FirstAt(needle, haystack, r.value)
    ensures r.None? <==> Absent(needle, haystack)
  {
    if |haystack| < |needle| then None else FindFrom(haystack, needle, 0)
  }

  lemma OccursInExtension(needle: Bytes, haystack: Bytes, more: Bytes, at: nat)
    requires at + |needle| <= |haystack|
    ensures OccursAt(needle, haystack + more, at) <==> OccursAt(needle, haystack, at)
  {
    assert (haystack + more)[at..at + |needle|] == haystack[at..at + |needle|];
  }

  lemma FirstIsUnique(needle: Bytes, haystack: Bytes, p: nat, q: nat)
    requires FirstAt(needle, haystack, p) && FirstAt(needle, haystack, q)
    ensures p == q
  {
  }

  /** A first match does not move when more bytes arrive behind it. */
  lemma FindStable(haystack: Bytes, needle: Bytes, more: Bytes)
    requires needle != [] && FindSubslice(haystack, needle).Some?
    ensures FindSubslice(haystack + more, needle) == FindSubslice(haystack, needle)
  {
    var at := FindSubslice(haystack, needle).value;
    FirstInExtension(needle, haystack, more, at);
    FindsFirst(haystack + more, needle, at);
  }

  lemma FirstInExtension(needle: Bytes, haystack: Bytes, more: Bytes, at: nat)
    requires FirstAt(needle, haystack, at)
    ensures FirstAt(needle, haystack + more, at)
  {
    forall p: nat | p <= at
      ensures OccursAt(needle, haystack + more, p) <==> OccursAt(needle, haystack, p)
    {
      OccursInExtension(needle, haystack, more, p);
    }
  }

  lemma FindsFirst(haystack: Bytes, needle: Bytes, at: nat)
    requires needle != [] && FirstAt(needle, haystack, at)
    ensures FindSubslice(haystack, needle) == Some(at)
  {
    var r := FindSubslice(haystack, needle);
    assert OccursAt(needle, haystack, at);
    assert r.Some?;
    FirstIsUnique(needle, haystack, at, r.value);
  }

  lemma RegroupBytes(a: Bytes, b: Bytes, c: Bytes)
    ensures a + (b + c) == (a + b) + c
  {
  }

  function Flatten(parts: seq<Bytes>): Bytes {
    if parts == [] then [] else parts[0] + Flatten(parts[1..])
  }

  lemma {:induction false} FlattenAppend(a: seq<Bytes>, b: seq<Bytes>)
    ensures Flatten(a + b) == Flatten(a) + Flatten(b)
  {
    if a == [] {
      assert a + b == b;
    } else {
      assert (a + b)[1..] == a[1..] + b;
      FlattenAppend(a[1..], b);
    }
  }
}
