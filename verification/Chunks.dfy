/** The indexed unit of src/chunker.rs, as far as ranking reads it, and the cosine of src/embedder.rs. */
module Chunks {
  datatype Chunk = Chunk(id: string, file: string, startLine: nat, endLine: nat,
                         kind: string, content: string, embedding: seq<real>)

  /** The dot product over the common length, as the source takes vectors to be normalised. */
  function Cosine(a: seq<real>, b: seq<real>): real {
    CosineUpTo(a, b, if |a| < |b| then |a| else |b|)
  }

  function CosineUpTo(a: seq<real>, b: seq<real>, n: nat): real
    requires n <= |a| && n <= |b|
  {
    if n == 0 then 0.0 else CosineUpTo(a, b, n - 1) + a[n - 1] * b[n - 1]
  }

  function FilesOf(chunks: seq<Chunk>): (r: seq<string>)
    ensures |r| == |chunks| && forall i | 0 <= i < |chunks| :: r[i] == chunks[i].file
  {
    seq(|chunks|, i requires 0 <= i < |chunks| => chunks[i].file)
  }

  /** No two chunks share an id. */
  predicate DistinctChunkIds(chunks: seq<Chunk>) {
    forall i, j | 0 <= i < j < |chunks| :: chunks[i].id != chunks[j].id
  }
}
