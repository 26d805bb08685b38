/**
 * Semantic chunk extraction (extractSemanticChunks, ast-chunking.ts:318-382).
 *
 * The top-level nodes of the tree are visited in order; each one that has a
 * span and is a boundary becomes one chunk (prefixed with the context text
 * when context is preserved), or is handed to the splitter when that chunk
 * would exceed the size budget. `SemanticChunks` specifies the imperative
 * `ExtractSemanticChunks`.
 */
module Extractor {
  import opened Base
  import opened Syntax
  import opened Chunks
  import opened Splitter

  /** The options extractSemanticChunks receives, defaults already applied. */
  datatype ExtractOptions = ExtractOptions(
    maxChunkSize: int,
    minChunkSize: int,
    preserveContext: bool,
    nodeTypes: Option<seq<string>>)

  /** `nodes.map(node => getSourceText(tree, node))` */
  function Texts(tree: Tree, nodes: seq<Node>): (r: seq<string>)
    ensures |r| == |nodes|
    ensures forall k :: 0 <= k < |nodes| ==> r[k] == SourceText(tree, nodes[k])
  {
    if |nodes| == 0 then [] else [SourceText(tree, nodes[0])] + Texts(tree, nodes[1..])
  }

  /** The context prefix: the texts of the context nodes joined by newlines
      and followed by a blank line, or nothing. */
  function ContextPrefix(tree: Tree, config: Option<LanguageConfig>, preserveContext: bool): (r: string)
    ensures !preserveContext || config.None? || config.value.contextTypes.None? ==> r == ""
    ensures preserveContext && config.Some? ==>
              var joined := Join(Texts(tree, ExtractContextNodes(tree, config)), "\n");
              (r == "" <==> joined == "") && (joined != "" ==> r == joined + "\n\n")
  {
    if preserveContext && config.Some? then
      var joined := Join(Texts(tree, ExtractContextNodes(tree, config)), "\n");
      if joined != "" then joined + "\n\n" else ""
    else ""
  }

  /** The languages whose parsers wrap the file in a single `Program` node. */
  predicate UnwrapsProgram(language: string) {
    ToLower(language) in ["javascript", "typescript", "jsx", "tsx"]
  }

  /** The root has a single child, the language is JavaScript-like, and that
      child is a `Program` node with children of its own. */
  predicate WrappedProgram(tree: Tree)
    requires |tree.nodes| > 0
  {
    var top := tree.nodes[0].children;
    && UnwrapsProgram(tree.language)
    && |top| == 1
    && top[0] < |tree.nodes|
    && tree.nodes[top[0]].nodeType == "Program"
    && |tree.nodes[top[0]].children| > 0
  }

  /** The ids visited as top level: the children of node 0, or, for a
      JavaScript-like language, the children of its single `Program` child
      when that child has any. */
  function TopLevelIds(tree: Tree): (r: seq<nat>)
    requires |tree.nodes| > 0
    ensures WrappedProgram(tree) ==> r == tree.nodes[tree.nodes[0].children[0]].children && |r| > 0
    ensures !WrappedProgram(tree) ==> r == tree.nodes[0].children
  {
    var top := tree.nodes[0].children;
    if |top| == 1 && UnwrapsProgram(tree.language) then
      match GetNode(tree, top[0])
      case Some(first) => if first.nodeType == "Program" && |first.children| > 0 then first.children else top
      case None => top
    else top
  }

  /** A node is a boundary when it is one of the requested node types, or,
      when no types are requested, one of the language's boundary types. */
  function IsBoundary(node: Node, config: Option<LanguageConfig>, nodeTypes: Option<seq<string>>): (r: bool)
    ensures nodeTypes.Some? ==> (r <==> node.nodeType in nodeTypes.value)
    ensures nodeTypes.None? ==> (r <==> IsSemanticBoundary(node, config))
  {
    if nodeTypes.Some? then node.nodeType in nodeTypes.value else IsSemanticBoundary(node, config)
  }

  /** The text a whole boundary node contributes. */
  function FinalContent(tree: Tree, node: Node, preserveContext: bool, prefix: string): string {
    if preserveContext then prefix + SourceText(tree, node) else SourceText(tree, node)
  }

  /** A top-level node whose chunk is emitted: it exists, has a span and is a
      boundary. */
  predicate Selected(tree: Tree, config: Option<LanguageConfig>, opts: ExtractOptions, id: nat) {
    id < |tree.nodes| && tree.nodes[id].span.Some? && IsBoundary(tree.nodes[id], config, opts.nodeTypes)
  }

  /** The chunk of a whole boundary node: the given text, the node's type,
      its 1-based line range and a copy of its attribute bag. */
  function BoundaryChunk(node: Node, final: string): Chunk
    requires node.span.Some?
  {
    Chunk(final, node.nodeType, node.span.value.start.line + 1, node.span.value.end.line + 1, node.data)
  }

  /** The chunks of one top-level node. */
  function TopNodeChunks(tree: ParsedTree, config: Option<LanguageConfig>, opts: ExtractOptions, prefix: string,
                         id: nat, chunkText: ChunkText): seq<Chunk>
  {
    if !Selected(tree, config, opts, id) then []
    else
      var node := tree.nodes[id];
      var final := FinalContent(tree, node, opts.preserveContext, prefix);
      if |final| > opts.maxChunkSize then SubChunks(tree, id, opts.maxChunkSize, chunkText)
      else [BoundaryChunk(node, final)]
  }

  /** The chunks of the listed top-level nodes, in order. */
  function TopChunks(tree: ParsedTree, config: Option<LanguageConfig>, opts: ExtractOptions, prefix: string,
                     ids: seq<nat>, chunkText: ChunkText): seq<Chunk>
    decreases |ids|
  {
    if |ids| == 0 then []
    else TopChunks(tree, config, opts, prefix, ids[..|ids| - 1], chunkText)
         + TopNodeChunks(tree, config, opts, prefix, ids[|ids| - 1], chunkText)
  }

  /** The specification of ExtractSemanticChunks. */
  function SemanticChunks(tree: ParsedTree, config: Option<LanguageConfig>, opts: ExtractOptions, chunkText: ChunkText): seq<Chunk> {
    if |tree.nodes| == 0 then []
    else TopChunks(tree, config, opts, ContextPrefix(tree, config, opts.preserveContext), TopLevelIds(tree), chunkText)
  }

  // ---------------------------------------------------------------------
  // The imperative extractor
  // ---------------------------------------------------------------------

  /** The top-level node ids, as extractSemanticChunks finds them: the
      root's children, or, for a JavaScript-like language, the children of a
      single non-empty `Program` node. */
  method TopLevelNodes(tree: ParsedTree) returns (topLevelNodes: seq<nat>)
    requires |tree.nodes| > 0
    ensures WrappedProgram(tree) ==> topLevelNodes == tree.nodes[tree.nodes[0].children[0]].children
    ensures !WrappedProgram(tree) ==> topLevelNodes == tree.nodes[0].children
    ensures topLevelNodes == TopLevelIds(tree)
  {
    var root := tree.nodes[0];

    topLevelNodes := root.children;
    var lang := ToLower(tree.language);
    if |topLevelNodes| == 1 && lang in ["javascript", "typescript", "jsx", "tsx"] {
      var firstChild := GetNode(tree, topLevelNodes[0]);
      if firstChild.Some? && firstChild.value.nodeType == "Program" && |firstChild.value.children| > 0 {
        topLevelNodes := firstChild.value.children;
      }
    }
  }

  /** extractSemanticChunks */
  method ExtractSemanticChunks(tree: ParsedTree, config: Option<LanguageConfig>, opts: ExtractOptions, chunkText: ChunkText)
    returns (chunks: seq<Chunk>)
    ensures chunks == SemanticChunks(tree, config, opts, chunkText)
  {
    chunks := [];

    var contextPrefix := "";
    if opts.preserveContext && config.Some? {
      var contextNodes := ExtractContextNodes(tree, config);
      contextPrefix := Join(Texts(tree, contextNodes), "\n");
      if contextPrefix != "" {
        contextPrefix := contextPrefix + "\n\n";
      }
    }

    assert contextPrefix == ContextPrefix(tree, config, opts.preserveContext);

    if |tree.nodes| == 0 {
      return;
    }
    var topLevelNodes := TopLevelNodes(tree);

    for k := 0 to |topLevelNodes|
      invariant chunks == TopChunks(tree, config, opts, contextPrefix, topLevelNodes[..k], chunkText)
    {
      var childId := topLevelNodes[k];
      TopChunksStep(tree, config, opts, contextPrefix, topLevelNodes, k, chunkText);
      TopNodeChunksCases(tree, config, opts, contextPrefix, childId, chunkText);
      ghost var step := TopNodeChunks(tree, config, opts, contextPrefix, childId, chunkText);
      var node := GetNode(tree, childId);
      if node.None? || node.value.span.None? {
        assert step == [];
        continue;
      }
      assert node.value == tree.nodes[childId];
      var isBoundary := IsBoundary(node.value, config, opts.nodeTypes);
      if isBoundary {
        var content := SourceText(tree, node.value);
        var finalContent := if opts.preserveContext then contextPrefix + content else content;
        assert finalContent == FinalContent(tree, node.value, opts.preserveContext, contextPrefix);
        if |finalContent| > opts.maxChunkSize {
          var subChunks := ExtractSubChunks(tree, childId, opts.maxChunkSize, chunkText);
          assert step == subChunks;
          chunks := chunks + subChunks;
        } else {
          var chunk := BoundaryChunk(node.value, finalContent);
          assert step == [chunk];
          chunks := chunks + [chunk];
        }
      } else {
        assert step == [];
      }
    }
    assert topLevelNodes[..|topLevelNodes|] == topLevelNodes;
  }

  lemma TopChunksStep(tree: ParsedTree, config: Option<LanguageConfig>, opts: ExtractOptions, prefix: string,
                      ids: seq<nat>, k: nat, chunkText: ChunkText)
    requires k < |ids|
    ensures TopChunks(tree, config, opts, prefix, ids[..k + 1], chunkText)
            == TopChunks(tree, config, opts, prefix, ids[..k], chunkText) + TopNodeChunks(tree, config, opts, prefix, ids[k], chunkText)
  {
    assert ids[..k + 1][..k] == ids[..k];
  }

  /** The three outcomes for one top-level node, as the loop meets them. */
  lemma TopNodeChunksCases(tree: ParsedTree, config: Option<LanguageConfig>, opts: ExtractOptions, prefix: string,
                           id: nat, chunkText: ChunkText)
    ensures !Selected(tree, config, opts, id) ==> TopNodeChunks(tree, config, opts, prefix, id, chunkText) == []
    ensures Selected(tree, config, opts, id) ==>
              var final := FinalContent(tree, tree.nodes[id], opts.preserveContext, prefix);
              TopNodeChunks(tree, config, opts, prefix, id, chunkText)
              == if |final| > opts.maxChunkSize then SubChunks(tree, id, opts.maxChunkSize, chunkText)
                 else [BoundaryChunk(tree.nodes[id], final)]
  {
  }

  // ---------------------------------------------------------------------
  // Properties
  // ---------------------------------------------------------------------

  /** The extracted chunks are exactly the chunks of the top-level nodes, in
      both directions. */
  lemma {:induction false} TopChunksMembers(tree: ParsedTree, config: Option<LanguageConfig>, opts: ExtractOptions, prefix: string,
                                            ids: seq<nat>, chunkText: ChunkText, c: Chunk)
    ensures c in TopChunks(tree, config, opts, prefix, ids, chunkText)
            <==> exists k :: 0 <= k < |ids| && c in TopNodeChunks(tree, config, opts, prefix, ids[k], chunkText)
    decreases |ids|
  {
    if |ids| > 0 {
      var init := ids[..|ids| - 1];
      TopChunksMembers(tree, config, opts, prefix, init, chunkText, c);
      if c in TopChunks(tree, config, opts, prefix, init, chunkText) {
        var k :| 0 <= k < |init| && c in TopNodeChunks(tree, config, opts, prefix, init[k], chunkText);
        assert ids[k] == init[k];
      }
      if exists k :: 0 <= k < |ids| && c in TopNodeChunks(tree, config, opts, prefix, ids[k], chunkText) {
        var k :| 0 <= k < |ids| && c in TopNodeChunks(tree, config, opts, prefix, ids[k], chunkText);
        if k < |init| {
          assert init[k] == ids[k];
        }
      }
    }
  }

  /** Without requested node types and without a language configuration no
      node is a boundary, so nothing is extracted. */
  lemma NoConfigNoChunks(tree: ParsedTree, opts: ExtractOptions, chunkText: ChunkText)
    requires opts.nodeTypes.None?
    ensures SemanticChunks(tree, None, opts, chunkText) == []
  {
    if |tree.nodes| > 0 {
      var prefix := ContextPrefix(tree, None, opts.preserveContext);
      var ids := TopLevelIds(tree);
      var r := TopChunks(tree, None, opts, prefix, ids, chunkText);
      if r != [] {
        TopChunksMembers(tree, None, opts, prefix, ids, chunkText, r[0]);
      }
    }
  }

  /** `c` is one of the chunks top-level node `id` contributes: its whole
      text behind the prefix when that fits, otherwise one of its sub-chunks. */
  ghost predicate FromTopNode(tree: ParsedTree, config: Option<LanguageConfig>, opts: ExtractOptions, prefix: string,
                              id: nat, c: Chunk, chunkText: ChunkText) {
    && Selected(tree, config, opts, id)
    && var final := FinalContent(tree, tree.nodes[id], opts.preserveContext, prefix);
       if |final| <= opts.maxChunkSize then c == BoundaryChunk(tree.nodes[id], final)
       else c in SubChunks(tree, id, opts.maxChunkSize, chunkText)
  }

  lemma TopNodeChunksFrom(tree: ParsedTree, config: Option<LanguageConfig>, opts: ExtractOptions, prefix: string,
                          id: nat, c: Chunk, chunkText: ChunkText)
    ensures c in TopNodeChunks(tree, config, opts, prefix, id, chunkText) <==> FromTopNode(tree, config, opts, prefix, id, c, chunkText)
  {
  }

  /** A selected top-level node whose text, with the prefix, fits the budget
      is extracted as one chunk carrying that text and its 1-based lines. */
  lemma SelectedFits(tree: ParsedTree, config: Option<LanguageConfig>, opts: ExtractOptions, chunkText: ChunkText, k: nat)
    requires |tree.nodes| > 0 && k < |TopLevelIds(tree)|
    requires Selected(tree, config, opts, TopLevelIds(tree)[k])
    requires |FinalContent(tree, tree.nodes[TopLevelIds(tree)[k]], opts.preserveContext,
                           ContextPrefix(tree, config, opts.preserveContext))| <= opts.maxChunkSize
    ensures BoundaryChunk(tree.nodes[TopLevelIds(tree)[k]],
                          FinalContent(tree, tree.nodes[TopLevelIds(tree)[k]], opts.preserveContext,
                                       ContextPrefix(tree, config, opts.preserveContext)))
              in SemanticChunks(tree, config, opts, chunkText)
  {
    var prefix := ContextPrefix(tree, config, opts.preserveContext);
    var ids := TopLevelIds(tree);
    var node := tree.nodes[ids[k]];
    var c := BoundaryChunk(node, FinalContent(tree, node, opts.preserveContext, prefix));
    TopNodeChunksFrom(tree, config, opts, prefix, ids[k], c, chunkText);
    TopChunksMembers(tree, config, opts, prefix, ids, chunkText, c);
  }

  /** A selected top-level node that does not fit is replaced by all of its
      sub-chunks. */
  lemma SelectedSplits(tree: ParsedTree, config: Option<LanguageConfig>, opts: ExtractOptions, chunkText: ChunkText, k: nat)
    requires |tree.nodes| > 0 && k < |TopLevelIds(tree)|
    requires Selected(tree, config, opts, TopLevelIds(tree)[k])
    requires |FinalContent(tree, tree.nodes[TopLevelIds(tree)[k]], opts.preserveContext,
                           ContextPrefix(tree, config, opts.preserveContext))| > opts.maxChunkSize
    ensures forall c :: c in SubChunks(tree, TopLevelIds(tree)[k], opts.maxChunkSize, chunkText)
              ==> c in SemanticChunks(tree, config, opts, chunkText)
  {
    var prefix := ContextPrefix(tree, config, opts.preserveContext);
    var ids := TopLevelIds(tree);
    forall c | c in SubChunks(tree, ids[k], opts.maxChunkSize, chunkText)
      ensures c in SemanticChunks(tree, config, opts, chunkText)
    {
      TopNodeChunksFrom(tree, config, opts, prefix, ids[k], c, chunkText);
      TopChunksMembers(tree, config, opts, prefix, ids, chunkText, c);
    }
  }

  /** Every extracted chunk comes from a selected top-level node: it is that
      node's whole text behind the context prefix, or one of its sub-chunks. */
  lemma SemanticChunksOrigin(tree: ParsedTree, config: Option<LanguageConfig>, opts: ExtractOptions, chunkText: ChunkText, c: Chunk)
    requires c in SemanticChunks(tree, config, opts, chunkText)
    ensures |tree.nodes| > 0
    ensures exists k :: 0 <= k < |TopLevelIds(tree)|
              && FromTopNode(tree, config, opts, ContextPrefix(tree, config, opts.preserveContext), TopLevelIds(tree)[k], c, chunkText)
  {
    var prefix := ContextPrefix(tree, config, opts.preserveContext);
    var ids := TopLevelIds(tree);
    TopChunksMembers(tree, config, opts, prefix, ids, chunkText, c);
    var k :| 0 <= k < |ids| && c in TopNodeChunks(tree, config, opts, prefix, ids[k], chunkText);
    TopNodeChunksFrom(tree, config, opts, prefix, ids[k], c, chunkText);
  }

  /** Every extracted chunk fits the size budget, except the character pieces
      of a childless node, whose size is chunkText's business. */
  lemma SemanticChunksBudget(tree: ParsedTree, config: Option<LanguageConfig>, opts: ExtractOptions, chunkText: ChunkText, c: Chunk)
    requires c in SemanticChunks(tree, config, opts, chunkText)
    ensures |c.content| <= opts.maxChunkSize || IsPieceMeta(c.metadata)
  {
    SemanticChunksOrigin(tree, config, opts, chunkText, c);
    var ids := TopLevelIds(tree);
    var prefix := ContextPrefix(tree, config, opts.preserveContext);
    var k :| 0 <= k < |ids| && FromTopNode(tree, config, opts, prefix, ids[k], c, chunkText);
    SubChunksBudget(tree, ids[k], opts.maxChunkSize, chunkText);
  }
}
