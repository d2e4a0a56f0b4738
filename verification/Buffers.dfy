/** What several buffers of the repository do alike: indices that go round a ring, and bytes
    copied down within one buffer. */
module Buffers {
  /** The index after i in a ring of n cells. */
  function Next(i: nat, n: nat): (r: nat)
    requires i < n
    ensures r < n
  {
    if i + 1 == n then 0 else i + 1
  }

  /** m with the n bytes from src on copied down to dst. */
  function Moved(m: seq<bv8>, dst: nat, src: nat, n: nat): (r: seq<bv8>)
    requires dst <= src && src + n <= |m|
    ensures |r| == |m|
  {
    m[..dst] + m[src..src + n] + m[dst + n..]
  }

  lemma MovedNothing(m: seq<bv8>, dst: nat, src: nat)
    requires dst <= src <= |m|
    ensures Moved(m, dst, src, 0) == m
  {}

  lemma MovedStep(m: seq<bv8>, dst: nat, src: nat, i: nat)
    requires dst <= src && src + i < |m|
    ensures Moved(m, dst, src, i)[src + i] == m[src + i]
    ensures Moved(m, dst, src, i + 1) == Moved(m, dst, src, i)[dst + i := m[src + i]]
  {}
}
