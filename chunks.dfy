/**
 * ChunkResult: one segment of the input with its type, its 1-based inclusive
 * line range and a metadata bag.
 */
module Chunks {
  import opened Base

  datatype Chunk = Chunk(
    content: string,
    chunkType: string,
    startLine: int,
    endLine: int,
    metadata: Bag)

  /** A chunk is semantic unless its metadata carries a truthy `split`. */
  function IsSemantic(c: Chunk): (r: bool)
    ensures r <==> "split" !in c.metadata || c.metadata["split"] in {Undefined, Null, Bool(false), Num(0), Str("")}
  {
    !Flag(c.metadata, "split")
  }
}
