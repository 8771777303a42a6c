/** Bytes, and sequences of them. */
module Octets {
  type Byte = x: int | 0 <= x < 256

  type Bytes = seq<Byte>

  /** Byte sequences one behind the other. */
  function Concat(parts: seq<Bytes>): Bytes {
    if parts == [] then [] else parts[0] + Concat(parts[1..])
  }

  lemma ConcatFirst(p: Bytes, parts: seq<Bytes>)
    ensures Concat([p] + parts) == p + Concat(parts)
  {
    assert ([p] + parts)[1..] == parts;
  }
}
