/** Chunks of 256 keys: a bit and a value for each, as both chunked bitmaps store them. */
module Chunks {
  const CHUNK: nat := 256

  datatype Chunk<V> = Chunk(bits: seq<bool>, vals: seq<V>) {
    predicate Full() {
      |bits| == CHUNK && |vals| == CHUNK
    }

    function Set(key: nat): Chunk<V>
      requires Full()
    {
      this.(bits := bits[key % CHUNK := true])
    }

    function Reset(key: nat): Chunk<V>
      requires Full()
    {
      this.(bits := bits[key % CHUNK := false])
    }

    function Test(key: nat): bool
      requires Full()
    {
      bits[key % CHUNK]
    }

    function Val(key: nat): V
      requires Full()
    {
      vals[key % CHUNK]
    }

    function SetVal(key: nat, val: V): Chunk<V>
      requires Full()
    {
      this.(vals := vals[key % CHUNK := val])
    }
  }

  function NewChunk<V>(zero: V): Chunk<V> {
    Chunk(seq(CHUNK, _ => false), seq(CHUNK, _ => zero))
  }

  /** Where the `j`-th bit of the `i`-th chunk is. */
  lemma Position(i: nat, j: nat)
    requires j < CHUNK
    ensures (i * CHUNK + j) / CHUNK == i && (i * CHUNK + j) % CHUNK == j
  {
  }

  lemma SamePlace(a: nat, b: nat)
    requires a / CHUNK == b / CHUNK && a % CHUNK == b % CHUNK
    ensures a == b
  {
  }
}
