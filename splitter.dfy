/**
 * The recursive splitter (extractSubChunks, ast-chunking.ts:272-313).
 *
 * An oversized node is replaced by its children: a child that fits becomes
 * one chunk, a child that is still too large is split again, and a childless
 * node is cut into pieces by `chunkText`. `SubChunks` is the specification
 * of the imperative `ExtractSubChunks`; the lemmas say where every emitted
 * chunk comes from.
 */
module Splitter {
  import opened Base
  import opened Syntax
  import opened Chunks

  /** chunkText (embeddings.ts, not part of this model): cuts a text into
      pieces for a size budget. Nothing is assumed about the pieces. */
  type ChunkText = (string, int) -> seq<string>

  /** The chunk for a whole node that fits: its text, its own type, its
      1-based line range and a copy of its attribute bag. */
  function NodeChunk(tree: Tree, n: Node): Chunk
    requires n.span.Some?
  {
    Chunk(SourceText(tree, n), n.nodeType, n.span.value.start.line + 1, n.span.value.end.line + 1, n.data)
  }

  /** `node.span?.start.line ?? 0 + 1` as written: `+` binds tighter than
      `??`, so this is the 0-based start line when there is a span and 1
      otherwise. */
  function LeafStartLine(n: Node): int {
    if n.span.Some? then n.span.value.start.line else 1
  }

  /** `node.span?.end.line ?? 0 + 1`, read the same way. */
  function LeafEndLine(n: Node): int {
    if n.span.Some? then n.span.value.end.line else 1
  }

  function LeafPieceMeta(i: nat): Bag {
    map["split" := Bool(true), "index" := Num(i)]
  }

  /** The i-th character piece of a childless node, typed `<type>[i]`. */
  function LeafPiece(n: Node, i: nat, piece: string): Chunk {
    Chunk(piece, n.nodeType + "[" + NatToString(i) + "]", LeafStartLine(n), LeafEndLine(n), LeafPieceMeta(i))
  }

  /** A character piece is never semantic, so the merger may join it. */
  lemma LeafPieceNotSemantic(n: Node, i: nat, piece: string)
    ensures !IsSemantic(LeafPiece(n, i, piece))
  {
    assert LeafPiece(n, i, piece).metadata["split"] == Bool(true);
  }

  /** The pieces of a childless node, in order: one chunk per piece. */
  function LeafPieces(n: Node, pieces: seq<string>): (r: seq<Chunk>)
    ensures |r| == |pieces|
    ensures forall i :: 0 <= i < |pieces| ==> r[i] == LeafPiece(n, i, pieces[i])
    decreases |pieces|
  {
    if |pieces| == 0 then []
    else LeafPieces(n, pieces[..|pieces| - 1]) + [LeafPiece(n, |pieces| - 1, pieces[|pieces| - 1])]
  }

  /** The chunks for an oversized node (the specification of ExtractSubChunks). */
  function SubChunks(tree: ParsedTree, id: nat, maxChunkSize: int, chunkText: ChunkText): seq<Chunk>
    requires id < |tree.nodes|
    decreases |tree.nodes| - id, 1, 0
  {
    var n := tree.nodes[id];
    if |n.children| > 0 then ChildrenChunks(tree, id, n.children, maxChunkSize, chunkText)
    else LeafPieces(n, chunkText(SourceText(tree, n), maxChunkSize))
  }

  /** The chunks for the listed children of `parent`, in order. */
  function ChildrenChunks(tree: ParsedTree, parent: nat, ids: seq<nat>, maxChunkSize: int, chunkText: ChunkText): seq<Chunk>
    requires parent < |tree.nodes|
    requires forall k :: 0 <= k < |ids| ==> ids[k] > parent
    decreases |tree.nodes| - parent, 0, |ids|
  {
    if |ids| == 0 then []
    else
      ChildrenChunks(tree, parent, ids[..|ids| - 1], maxChunkSize, chunkText)
      + ChildChunks(tree, parent, ids[|ids| - 1], maxChunkSize, chunkText)
  }

  /** The chunks for one child: none when the id is dangling or the child has
      no span, one when it fits, its own sub-chunks otherwise. */
  function ChildChunks(tree: ParsedTree, parent: nat, childId: nat, maxChunkSize: int, chunkText: ChunkText): seq<Chunk>
    requires parent < |tree.nodes| && childId > parent
    decreases |tree.nodes| - parent, 0, 0
  {
    match GetNode(tree, childId)
    case None => []
    case Some(child) =>
      if child.span.None? then []
      else if |SourceText(tree, child)| > maxChunkSize then SubChunks(tree, childId, maxChunkSize, chunkText)
      else [NodeChunk(tree, child)]
  }

  // ---------------------------------------------------------------------
  // The imperative splitter
  // ---------------------------------------------------------------------

  /** extractSubChunks, on the node with id `id`. */
  method ExtractSubChunks(tree: ParsedTree, id: nat, maxChunkSize: int, chunkText: ChunkText) returns (chunks: seq<Chunk>)
    requires id < |tree.nodes|
    ensures chunks == SubChunks(tree, id, maxChunkSize, chunkText)
    decreases |tree.nodes| - id
  {
    var node := tree.nodes[id];
    chunks := [];
    if |node.children| > 0 {
      for k := 0 to |node.children|
        invariant chunks == ChildrenChunks(tree, id, node.children[..k], maxChunkSize, chunkText)
      {
        var childId := node.children[k];
        assert node.children[..k + 1][..k] == node.children[..k];
        var child := GetNode(tree, childId);
        if child.None? || child.value.span.None? {
          continue;
        }
        var content := SourceText(tree, child.value);
        if |content| > maxChunkSize {
          var sub := ExtractSubChunks(tree, childId, maxChunkSize, chunkText);
          chunks := chunks + sub;
        } else {
          chunks := chunks + [Chunk(
            content,
            child.value.nodeType,
            child.value.span.value.start.line + 1,
            child.value.span.value.end.line + 1,
            child.value.data)];
        }
      }
      assert node.children[..|node.children|] == node.children;
    } else {
      var content := SourceText(tree, node);
      var charChunks := chunkText(content, maxChunkSize);
      for i := 0 to |charChunks|
        invariant chunks == LeafPieces(node, charChunks[..i])
      {
        assert charChunks[..i + 1][..i] == charChunks[..i];
        chunks := chunks + [Chunk(
          charChunks[i],
          node.nodeType + "[" + NatToString(i) + "]",
          if node.span.Some? then node.span.value.start.line else 1,
          if node.span.Some? then node.span.value.end.line else 1,
          map["split" := Bool(true), "index" := Num(i)])];
      }
      assert charChunks[..|charChunks|] == charChunks;
    }
  }

  // ---------------------------------------------------------------------
  // Where the splitter's chunks come from
  // ---------------------------------------------------------------------

  /** `c` is the whole-node chunk of node `d`, which has a span and fits. */
  ghost predicate WholeNodeChunk(tree: Tree, d: nat, c: Chunk, maxChunkSize: int) {
    && d < |tree.nodes|
    && tree.nodes[d].span.Some?
    && |SourceText(tree, tree.nodes[d])| <= maxChunkSize
    && c == NodeChunk(tree, tree.nodes[d])
  }

  /** `c` is one of the character pieces of node `d`, which has no children. */
  ghost predicate LeafPieceChunk(tree: Tree, d: nat, c: Chunk, maxChunkSize: int, chunkText: ChunkText) {
    && d < |tree.nodes|
    && |tree.nodes[d].children| == 0
    && var pieces := chunkText(SourceText(tree, tree.nodes[d]), maxChunkSize);
       exists i :: 0 <= i < |pieces| && c == LeafPiece(tree.nodes[d], i, pieces[i])
  }

  /** Node `d` is node `a` or lies below it: it is reached from `a` by
      following child links. */
  ghost predicate Descendant(tree: ParsedTree, a: nat, d: nat)
    decreases d - a
  {
    a == d
    || (a < d && a < |tree.nodes|
        && exists k :: 0 <= k < |tree.nodes[a].children| && tree.nodes[a].children[k] <= d
                       && Descendant(tree, tree.nodes[a].children[k], d))
  }

  /** A descendant of a child is a descendant of the parent. */
  lemma DescendantOfChild(tree: ParsedTree, a: nat, k: nat, d: nat)
    requires a < |tree.nodes| && k < |tree.nodes[a].children|
    requires Descendant(tree, tree.nodes[a].children[k], d)
    ensures Descendant(tree, a, d)
  {
    var child := tree.nodes[a].children[k];
    assert child > a;
    assert child <= d;
  }

  /** `c` was emitted for node `id` or for a node below it. */
  ghost predicate EmittedFrom(tree: ParsedTree, id: nat, c: Chunk, maxChunkSize: int, chunkText: ChunkText) {
    exists d :: Descendant(tree, id, d) && (WholeNodeChunk(tree, d, c, maxChunkSize) || LeafPieceChunk(tree, d, c, maxChunkSize, chunkText))
  }

  /** Every chunk of an oversized node is either a whole node below it that
      has a span and fits the budget, or a character piece of the node itself
      or of a childless node below it. */
  lemma {:induction false} SubChunksOrigin(tree: ParsedTree, id: nat, maxChunkSize: int, chunkText: ChunkText)
    requires id < |tree.nodes|
    ensures forall c :: c in SubChunks(tree, id, maxChunkSize, chunkText) ==> EmittedFrom(tree, id, c, maxChunkSize, chunkText)
    decreases |tree.nodes| - id, 1, 0
  {
    var n := tree.nodes[id];
    if |n.children| > 0 {
      ChildrenChunksOrigin(tree, id, n.children, maxChunkSize, chunkText);
      forall c | c in SubChunks(tree, id, maxChunkSize, chunkText)
        ensures EmittedFrom(tree, id, c, maxChunkSize, chunkText)
      {
        assert c in ChildrenChunks(tree, id, n.children, maxChunkSize, chunkText);
        var k :| 0 <= k < |n.children| && EmittedFrom(tree, n.children[k], c, maxChunkSize, chunkText);
        var d: nat :| Descendant(tree, n.children[k], d)
                 && (WholeNodeChunk(tree, d, c, maxChunkSize) || LeafPieceChunk(tree, d, c, maxChunkSize, chunkText));
        DescendantOfChild(tree, id, k, d);
      }
    } else {
      var pieces := chunkText(SourceText(tree, n), maxChunkSize);
      var r := LeafPieces(n, pieces);
      forall c | c in r ensures EmittedFrom(tree, id, c, maxChunkSize, chunkText) {
        var i :| 0 <= i < |r| && r[i] == c;
        assert c == LeafPiece(n, i, pieces[i]);
        assert LeafPieceChunk(tree, id, c, maxChunkSize, chunkText);
        assert Descendant(tree, id, id);
      }
    }
  }

  /** Every chunk for a list of children comes from one of those children or
      from below it. */
  lemma {:induction false} ChildrenChunksOrigin(tree: ParsedTree, parent: nat, ids: seq<nat>, maxChunkSize: int, chunkText: ChunkText)
    requires parent < |tree.nodes|
    requires forall k :: 0 <= k < |ids| ==> ids[k] > parent
    ensures forall c :: c in ChildrenChunks(tree, parent, ids, maxChunkSize, chunkText)
              ==> exists k :: 0 <= k < |ids| && EmittedFrom(tree, ids[k], c, maxChunkSize, chunkText)
    decreases |tree.nodes| - parent, 0, |ids|
  {
    if |ids| > 0 {
      var init := ids[..|ids| - 1];
      var last := ids[|ids| - 1];
      ChildrenChunksOrigin(tree, parent, init, maxChunkSize, chunkText);
      ChildChunksOrigin(tree, parent, last, maxChunkSize, chunkText);
      forall c | c in ChildrenChunks(tree, parent, ids, maxChunkSize, chunkText)
        ensures exists k :: 0 <= k < |ids| && EmittedFrom(tree, ids[k], c, maxChunkSize, chunkText)
      {
        if c in ChildrenChunks(tree, parent, init, maxChunkSize, chunkText) {
          var k :| 0 <= k < |init| && EmittedFrom(tree, init[k], c, maxChunkSize, chunkText);
          assert ids[k] == init[k];
        } else {
          assert EmittedFrom(tree, ids[|ids| - 1], c, maxChunkSize, chunkText);
        }
      }
    }
  }

  /** Every chunk for one child comes from that child or from below it. */
  lemma {:induction false} ChildChunksOrigin(tree: ParsedTree, parent: nat, childId: nat, maxChunkSize: int, chunkText: ChunkText)
    requires parent < |tree.nodes| && childId > parent
    ensures forall c :: c in ChildChunks(tree, parent, childId, maxChunkSize, chunkText)
              ==> EmittedFrom(tree, childId, c, maxChunkSize, chunkText)
    decreases |tree.nodes| - parent, 0, 0
  {
    if childId < |tree.nodes| && tree.nodes[childId].span.Some? {
      var child := tree.nodes[childId];
      if |SourceText(tree, child)| > maxChunkSize {
        SubChunksOrigin(tree, childId, maxChunkSize, chunkText);
      } else {
        assert WholeNodeChunk(tree, childId, NodeChunk(tree, child), maxChunkSize);
        assert Descendant(tree, childId, childId);
      }
    }
  }

  /** The chunks for a list of children are exactly the chunks of its
      members, in both directions. */
  lemma {:induction false} ChildrenChunksMembers(tree: ParsedTree, parent: nat, ids: seq<nat>, maxChunkSize: int,
                                                 chunkText: ChunkText, c: Chunk)
    requires parent < |tree.nodes|
    requires forall k :: 0 <= k < |ids| ==> ids[k] > parent
    ensures c in ChildrenChunks(tree, parent, ids, maxChunkSize, chunkText)
            <==> exists k :: 0 <= k < |ids| && c in ChildChunks(tree, parent, ids[k], maxChunkSize, chunkText)
    decreases |ids|
  {
    if |ids| > 0 {
      var init := ids[..|ids| - 1];
      var last := ChildChunks(tree, parent, ids[|ids| - 1], maxChunkSize, chunkText);
      assert ChildrenChunks(tree, parent, ids, maxChunkSize, chunkText)
             == ChildrenChunks(tree, parent, init, maxChunkSize, chunkText) + last;
      ChildrenChunksMembers(tree, parent, init, maxChunkSize, chunkText, c);
      if c in ChildrenChunks(tree, parent, init, maxChunkSize, chunkText) {
        var k :| 0 <= k < |init| && c in ChildChunks(tree, parent, init[k], maxChunkSize, chunkText);
        assert ids[k] == init[k];
      }
      if exists k :: 0 <= k < |ids| && c in ChildChunks(tree, parent, ids[k], maxChunkSize, chunkText) {
        var k :| 0 <= k < |ids| && c in ChildChunks(tree, parent, ids[k], maxChunkSize, chunkText);
        if k < |init| {
          assert init[k] == ids[k];
        }
      }
    }
  }

  /** Every child of an oversized node that exists and has a span is
      covered: whole when it fits, and by all of its own sub-chunks when it
      does not. */
  lemma ChildCovered(tree: ParsedTree, id: nat, k: nat, maxChunkSize: int, chunkText: ChunkText)
    requires id < |tree.nodes| && k < |tree.nodes[id].children|
    requires tree.nodes[id].children[k] < |tree.nodes| && tree.nodes[tree.nodes[id].children[k]].span.Some?
    ensures var childId := tree.nodes[id].children[k];
            var child := tree.nodes[childId];
            |SourceText(tree, child)| <= maxChunkSize ==> NodeChunk(tree, child) in SubChunks(tree, id, maxChunkSize, chunkText)
    ensures var childId := tree.nodes[id].children[k];
            var child := tree.nodes[childId];
            |SourceText(tree, child)| > maxChunkSize ==>
              forall c :: c in SubChunks(tree, childId, maxChunkSize, chunkText) ==> c in SubChunks(tree, id, maxChunkSize, chunkText)
  {
    var ids := tree.nodes[id].children;
    var childId := ids[k];
    var child := tree.nodes[childId];
    assert childId > id;
    assert SubChunks(tree, id, maxChunkSize, chunkText) == ChildrenChunks(tree, id, ids, maxChunkSize, chunkText);
    if |SourceText(tree, child)| <= maxChunkSize {
      var c := NodeChunk(tree, child);
      assert c in ChildChunks(tree, id, childId, maxChunkSize, chunkText);
      ChildrenChunksMembers(tree, id, ids, maxChunkSize, chunkText, c);
    } else {
      forall c | c in SubChunks(tree, childId, maxChunkSize, chunkText)
        ensures c in SubChunks(tree, id, maxChunkSize, chunkText)
      {
        assert c in ChildChunks(tree, id, childId, maxChunkSize, chunkText);
        ChildrenChunksMembers(tree, id, ids, maxChunkSize, chunkText, c);
      }
    }
  }

  /** The metadata of a character piece: exactly `{split: true, index: i}`. */
  predicate IsPieceMeta(m: Bag) {
    m.Keys == {"split", "index"} && m["split"] == Bool(true) && m["index"].Num? && m["index"].n >= 0
  }

  /** Every chunk of an oversized node fits the budget unless it is a
      character piece, whose size depends on chunkText alone. */
  lemma SubChunksBudget(tree: ParsedTree, id: nat, maxChunkSize: int, chunkText: ChunkText)
    requires id < |tree.nodes|
    ensures forall c :: c in SubChunks(tree, id, maxChunkSize, chunkText)
              ==> |c.content| <= maxChunkSize || IsPieceMeta(c.metadata)
  {
    SubChunksOrigin(tree, id, maxChunkSize, chunkText);
    forall c | c in SubChunks(tree, id, maxChunkSize, chunkText)
      ensures |c.content| <= maxChunkSize || IsPieceMeta(c.metadata)
    {
      var d: nat :| Descendant(tree, id, d) && (WholeNodeChunk(tree, d, c, maxChunkSize) || LeafPieceChunk(tree, d, c, maxChunkSize, chunkText));
      if !WholeNodeChunk(tree, d, c, maxChunkSize) {
        var pieces := chunkText(SourceText(tree, tree.nodes[d]), maxChunkSize);
        var i :| 0 <= i < |pieces| && c == LeafPiece(tree.nodes[d], i, pieces[i]);
        assert c.metadata == LeafPieceMeta(i);
      }
    }
  }

  /** The leaf-line expression as written gives a character piece a line one
      lower than the 1-based line the same node gets as a whole chunk. */
  lemma LeafLinesAreZeroBased(tree: Tree, n: Node, i: nat, piece: string)
    requires n.span.Some?
    ensures LeafPiece(n, i, piece).startLine == NodeChunk(tree, n).startLine - 1
    ensures LeafPiece(n, i, piece).endLine == NodeChunk(tree, n).endLine - 1
  {
  }
}
