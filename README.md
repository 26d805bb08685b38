# AST-based code chunking, modelled in Dafny

This project models the chunk-extraction engine of `packages/core/src/ast-chunking.ts`. The engine takes source code and a file path. It parses the code into a syntax tree: a flat table of nodes indexed by integer ids, each with an optional span and a list of child ids. From the tree it produces an ordered list of chunk records. Each record holds content, a type, a 1-based start and end line, and a metadata map.

The engine works in stages, and each stage is one module:

- **Base**: the metadata value type with JavaScript truthiness, and the string built-ins the engine uses: `join`, `split('\n')`, `trim`, ASCII `toLowerCase` and `${i}`.
- **Syntax**: the tree, the language configuration, `getSourceText` with `slice` clamping, `getNode`, the boundary and context classifiers, and `detectEmbeddedLanguage`.
- **Chunks**: the chunk record, and what makes a chunk semantic (no truthy `split` flag).
- **Merger**: `mergeSmallChunks`.
  - The imperative method follows the source loop, with its buffer and its `continue`.
  - Its specification cuts the input into consecutive groups, one output chunk per group.
  - The lemmas prove:
    - the groups partition the input in order;
    - a group of two or more holds only non-semantic chunks shorter than the minimum;
    - an ineligible chunk is never merged;
    - merging is greedy;
    - the shape of a merged chunk: contents joined with a blank line, types joined with `+`, the first chunk's start line, the last chunk's end line, and a `merged` flag.
- **Splitter**: `extractSubChunks`.
  - An oversized node is replaced by its children, recursively.
  - A childless node is cut into `chunkText` pieces typed `<type>[i]`.
  - The lemmas show where every piece comes from. They also show that each piece fits the budget, or else is a character piece.
- **Extractor**: `extractSemanticChunks`, covering:
  - the context prefix;
  - unwrapping a single JavaScript or TypeScript `Program` node;
  - the `nodeTypes` allow-list that overrides the configured boundaries;
  - the choice between one whole chunk and splitting.
- **Fence**: the regular expression `/^```\w*\n([\s\S]*?)\n```$/m` that strips a Markdown fence from an embedded block.
  - It is modelled in full: multiline `^`/`$` over all four ECMAScript line terminators, a greedy `\w*`, a lazy body and the leftmost match.
  - A lemma proves that a fenced block gives back its body.
- **Pipeline**: `chunkCodeByAST` and `parseEmbeddedChunks`, which call each other; the nested call switches embedding off.
  - It also covers the two fallbacks (`createFallbackChunks` and the single `no-semantic-boundaries` chunk) and `chunkCodeByASTSimple`.

Each imperative source function is a Dafny method: the loops of the source are `for` loops with invariants, and the straight-line steps are method calls and assignments. Each method's postcondition equates its result with a specification function. The properties are then proved about that function.

The language lookup, the configuration registry, the parser and `chunkText` are functions passed in as an `Env`. Nothing is assumed about them, beyond trees whose child ids exceed their parent's id.

Character pieces of a childless node take their lines from `node.span?.start.line ?? 0 + 1`, as written (`ast-chunking.ts:305-306`). `+` binds tighter than `??`, so such a piece gets the 0-based line of the node when it has a span, and line 1 when it does not. Whole nodes get the 1-based lines `span.start.line + 1 .. span.end.line + 1`. The model keeps this behaviour, and `Splitter.LeafLinesAreZeroBased` states the difference.

## Model

| member | source | states |
|---|---|---|
| Base.Split | packages/core/src/ast-chunking.ts:536 | `split('\n')` yields one more piece than there are newlines, and no piece contains a newline |
| Base.SplitJoin | packages/core/src/ast-chunking.ts:536 | joining the pieces of a split with the separator gives back the original text |
| Base.JoinSnoc | packages/core/src/ast-chunking.ts:334 | joining one more part appends the separator and the part |
| Base.TrimStartBlank | packages/core/src/ast-chunking.ts:530 | removing leading white space leaves nothing exactly when the text is blank, and otherwise leaves a non-white first character |
| Base.TrimEndEmpty | packages/core/src/ast-chunking.ts:530 | removing trailing white space leaves nothing exactly when the text is blank |
| Base.TrimEmptyIffBlank | packages/core/src/ast-chunking.ts:530 | `code.trim().length > 0` holds exactly when some character of the code is not white space |
| Base.Truthy | packages/core/src/ast-chunking.ts:226 | JavaScript truthiness: a metadata value is falsy exactly when it is `undefined`, `null`, `false`, `0` or the empty string |
| Base.ToLower | packages/core/src/ast-chunking.ts:203 | lower-casing keeps the length, maps every character through the ASCII lower-case map, and leaves no upper-case letter |
| Base.NatToString | packages/core/src/ast-chunking.ts:304 | the decimal text of a piece index is a non-empty string of digits |
| Base.NatToStringRoundTrip | packages/core/src/ast-chunking.ts:304 | the decimal text of an index reads back as that index, so distinct pieces get distinct `<type>[i]` types |
| Syntax.Slice | packages/core/src/ast-chunking.ts:157 | `slice` clamps its bounds: the result is never longer than the text, and equals the exact substring when the bounds are in range |
| Syntax.SourceText | packages/core/src/ast-chunking.ts:155-158 | a span-less node has empty text; otherwise the text is exactly `source[start.offset..end.offset)` when the offsets are in range |
| Syntax.GetNode | packages/core/src/ast-chunking.ts:160-162 | a node is found exactly when the id is in range, and it is the node stored at that index |
| Syntax.IsSemanticBoundary | packages/core/src/ast-chunking.ts:167-170 | a node is a boundary exactly when a configuration exists and lists its type; without a configuration nothing is |
| Syntax.FilterByType | packages/core/src/ast-chunking.ts:178 | the filter keeps only nodes of the listed types, and keeps every such node |
| Syntax.FilterByTypeConcat | packages/core/src/ast-chunking.ts:178 | filtering distributes over concatenation, so kept nodes stay in table order |
| Syntax.ExtractContextNodes | packages/core/src/ast-chunking.ts:175-179 | no context nodes without a configuration or context types; otherwise exactly the nodes of a context type |
| Syntax.DetectEmbeddedLanguage | packages/core/src/ast-chunking.ts:195-209 | the lower-cased attribute value when it is a non-empty string, otherwise the rule's default language |
| Syntax.FindRule | packages/core/src/ast-chunking.ts:418 | `find` returns nothing exactly when no rule has the type; otherwise it returns the first rule that has it |
| Chunks.IsSemantic | packages/core/src/ast-chunking.ts:226 | a chunk is semantic exactly when its metadata has no `split` key or a falsy `split` value |
| Merger.MergeSmallChunks | packages/core/src/ast-chunking.ts:218-267 | the buffered loop computes the group-wise merge of the input |
| Merger.StepAbstracts | packages/core/src/ast-chunking.ts:228-259 | one loop iteration on the buffer and the output equals one step of the grouping |
| Merger.RunComputesGroups | packages/core/src/ast-chunking.ts:224-264 | running the loop from any state and flushing the buffer yields the merged chunks of the groups |
| Merger.MergePartition | packages/core/src/ast-chunking.ts:218-267 | empty input gives `[]`; otherwise the output has one chunk per consecutive group, the groups flatten back to the input, a single-chunk group passes through unchanged, and longer groups are mergeable runs |
| Merger.GroupsFlatten | packages/core/src/ast-chunking.ts:224-264 | no input chunk is dropped, duplicated or reordered |
| Merger.GroupsMergeable | packages/core/src/ast-chunking.ts:238-250 | every group of two or more holds only non-semantic chunks shorter than the minimum, and each was absorbed while the buffer was still shorter than the minimum |
| Merger.IneligibleAlone | packages/core/src/ast-chunking.ts:252-255 | a semantic or large chunk forms a group of its own |
| Merger.NeverMerged | packages/core/src/ast-chunking.ts:228-233 | a semantic chunk, or one at least `minChunkSize` long, appears unchanged in the output |
| Merger.GroupsMaximal | packages/core/src/ast-chunking.ts:238-243 | merging is greedy: a group ends only when its merged chunk or the next chunk cannot be absorbed |
| Merger.CombineShape | packages/core/src/ast-chunking.ts:244-250 | a merged chunk joins the contents with a blank line and the types with `+`, takes the first start line and the last end line, adds `merged` to the first chunk's metadata, and stays non-semantic |
| Splitter.LeafPieces | packages/core/src/ast-chunking.ts:299-309 | a childless node yields one chunk per `chunkText` piece, in order, the i-th typed `<type>[i]` with metadata `{split: true, index: i}` |
| Splitter.ExtractSubChunks | packages/core/src/ast-chunking.ts:272-313 | the recursive loop computes the specified sub-chunks of a node |
| Splitter.SubChunksOrigin | packages/core/src/ast-chunking.ts:279-309 | every sub-chunk of a node is either a whole node below it that has a span and fits the budget, or a character piece of the node itself or of a childless node below it; "below" means reached by following child links |
| Splitter.ChildrenChunksOrigin | packages/core/src/ast-chunking.ts:280-296 | every chunk for a list of children comes from one of those children or from a node below it, as a fitting whole node or a character piece |
| Splitter.ChildChunksOrigin | packages/core/src/ast-chunking.ts:281-295 | every chunk for one child comes from that child or from a node below it, as a fitting whole node with a span or as a character piece |
| Splitter.ChildrenChunksMembers | packages/core/src/ast-chunking.ts:280-296 | a chunk is produced for a list of children exactly when one of those children produces it |
| Splitter.ChildCovered | packages/core/src/ast-chunking.ts:281-295 | a child of an oversized node that exists and has a span is not lost: when it fits, its whole-node chunk is among the node's sub-chunks, and when it does not, all of its own sub-chunks are |
| Splitter.SubChunksBudget | packages/core/src/ast-chunking.ts:285-294 | every sub-chunk is at most `maxChunkSize` long unless it is a character piece |
| Splitter.LeafPieceNotSemantic | packages/core/src/ast-chunking.ts:307 | a character piece carries `split: true`, so it is never semantic and the merger may join it |
| Splitter.LeafLinesAreZeroBased | packages/core/src/ast-chunking.ts:305-306 | character pieces carry lines one lower than the 1-based lines the same node gets as a whole chunk |
| Extractor.Texts | packages/core/src/ast-chunking.ts:334 | the i-th text is the source text of the i-th context node |
| Extractor.ContextPrefix | packages/core/src/ast-chunking.ts:331-336 | the prefix is empty unless context is preserved and a configuration exists; then it is empty exactly when the context texts joined by newlines are empty, and otherwise it is that text followed by a blank line |
| Extractor.TopLevelIds | packages/core/src/ast-chunking.ts:343-350 | for JavaScript, TypeScript, JSX and TSX (in any letter case), when node 0 has a single child that is a `Program` node with children, the top level is that node's children, and it is never empty; in every other case it is the children of node 0 |
| Extractor.TopLevelNodes | packages/core/src/ast-chunking.ts:339-350 | the imperative search unwraps a single non-empty `Program` child of node 0 for the JavaScript family, and otherwise keeps node 0's children |
| Extractor.IsBoundary | packages/core/src/ast-chunking.ts:358-360 | a given `nodeTypes` list decides alone; without it the configured boundaries decide |
| Extractor.ExtractSemanticChunks | packages/core/src/ast-chunking.ts:318-382 | the extraction loop computes the specified semantic chunks |
| Extractor.TopChunksMembers | packages/core/src/ast-chunking.ts:353-379 | a chunk is extracted exactly when some top-level node contributes it |
| Extractor.NoConfigNoChunks | packages/core/src/ast-chunking.ts:358-362 | without `nodeTypes` and without a configuration nothing is extracted |
| Extractor.SelectedFits | packages/core/src/ast-chunking.ts:362-376 | a top-level boundary with a span whose text (with prefix) fits yields a chunk with that text, its type, the lines `start+1 .. end+1` and its data |
| Extractor.SelectedSplits | packages/core/src/ast-chunking.ts:366-368 | a top-level boundary that does not fit contributes all of its sub-chunks |
| Extractor.SemanticChunksOrigin | packages/core/src/ast-chunking.ts:353-379 | every extracted chunk comes from a top-level node that has a span and is a boundary: its whole text behind the prefix, or one of its sub-chunks |
| Extractor.SemanticChunksBudget | packages/core/src/ast-chunking.ts:366-376 | every extracted chunk is at most `maxChunkSize` long unless it is a character piece |
| Fence.WordEnd | packages/core/src/ast-chunking.ts:430 | the greedy `\w*` stops at the first non-word character |
| Fence.CloseFrom | packages/core/src/ast-chunking.ts:430 | the lazy body ends at the first closing fence that ends a line, and no closing fence comes before it |
| Fence.MatchAt | packages/core/src/ast-chunking.ts:430 | a match at a position needs an opening fence at the start of a line followed by its info string and a newline; its group then starts right after that newline, lies in the content, ends where a closing fence that ends a line begins, and holds no such closing fence |
| Fence.MatchAtComplete | packages/core/src/ast-chunking.ts:430 | conversely, an opening fence at the start of a line, with its info string and newline, followed anywhere by a closing fence that ends a line, is a match |
| Fence.MatchStart | packages/core/src/ast-chunking.ts:430 | the match used is the leftmost: the pattern matches there and at no earlier position |
| Fence.StripFence | packages/core/src/ast-chunking.ts:430-433 | without a match the content is kept; otherwise the code is the group of the match at the leftmost matching position |
| Fence.StripFenceLeftmost | packages/core/src/ast-chunking.ts:430-433 | when the pattern matches nowhere the content is kept; otherwise the code is the group of a match before which the pattern matches nowhere |
| Fence.FenceRoundTrip | packages/core/src/ast-chunking.ts:430-433 | a block fenced with a word-character info string, whose body holds no closing fence, gives back its body |
| Fence.NoFenceUnchanged | packages/core/src/ast-chunking.ts:430-433 | content without three backticks in a row is kept as it is |
| Fence.StripFenceShrinks | packages/core/src/ast-chunking.ts:430-433 | the stripped code is a substring of the content, at least eight characters shorter |
| Pipeline.Language | packages/core/src/ast-chunking.ts:497-501 | a language is used only when the lookup returns a non-empty name |
| Pipeline.FallbackChunks | packages/core/src/ast-chunking.ts:548-557 | one `text` chunk per `chunkText` piece, with lines 0 and metadata exactly `{fallback: true, index: i}` for the i-th piece |
| Pipeline.NoBoundaryChunk | packages/core/src/ast-chunking.ts:531-539 | the whole code as one chunk of type `unknown`, from line 1 to the number of newline-separated lines, with metadata exactly `{fallback: true, reason: 'no-semantic-boundaries'}` |
| Pipeline.Finalize | packages/core/src/ast-chunking.ts:530-542 | a non-empty merge is returned as is; an empty merge gives `[]` for blank code and the single whole-code chunk otherwise |
| Pipeline.EmbedLanguage | packages/core/src/ast-chunking.ts:418-427 | a chunk is re-parsed exactly when the first rule for its type is recursive and the language detected under that rule is other than empty, `text` or `plain`; the language used is that detected language |
| Pipeline.EmbeddedLanguageOf | packages/core/src/ast-chunking.ts:418-427 | the imperative decision re-parses exactly when the first rule for the chunk's type is recursive and its detected language is parseable, and then picks that language |
| Pipeline.Reanchored | packages/core/src/ast-chunking.ts:444-453 | a sub-chunk keeps its content and type, its lines are shifted by the host's start line minus one, and its metadata gains `embeddedIn` (host type) and `embeddedLanguage` over its own |
| Pipeline.ReanchorAll | packages/core/src/ast-chunking.ts:443-454 | all sub-chunks are re-anchored, one for one and in order |
| Pipeline.ReanchorChunks | packages/core/src/ast-chunking.ts:443-454 | the re-anchoring loop computes those chunks |
| Pipeline.ParseEmbeddedChunks | packages/core/src/ast-chunking.ts:408-465 | the embedded pass computes its specification, calling the pipeline with embedding off |
| Pipeline.ChunkCodeByAST | packages/core/src/ast-chunking.ts:483-543 | the pipeline computes its specification: fallback, extraction, embedded pass, merge and final fallback |
| Pipeline.ChunkCodeByASTSimple | packages/core/src/ast-chunking.ts:562-569 | the simple wrapper returns the contents of the pipeline's chunks, one for one and in order |
| Pipeline.FallbackWithoutTree | packages/core/src/ast-chunking.ts:497-511 | with no usable language or a failed parse, the result is the `chunkText` pieces, each a fallback chunk |
| Pipeline.ParsedNonBlankNotEmpty | packages/core/src/ast-chunking.ts:529-540 | parsed code that is not blank never yields an empty result |
| Pipeline.NoConfigNoBoundaries | packages/core/src/ast-chunking.ts:513-542 | a parsed file in a language without configuration and without `nodeTypes` gives `[]` when blank, and otherwise the single whole-code fallback chunk |
| Pipeline.EmbeddingOffSkipsPass | packages/core/src/ast-chunking.ts:521-524 | with embedding off, as in every nested run, extraction goes straight to merging, and a nested run's own nested runs are off too |
| Pipeline.EmbedAllKeeps | packages/core/src/ast-chunking.ts:417-462 | the embedded pass leaves the list unchanged when no chunk's type has a recursive rule |
| Pipeline.EmbedOneCases | packages/core/src/ast-chunking.ts:417-462 | one chunk stays as it is unless its nested run is accepted, and is then replaced by the non-empty list of its re-anchored sub-chunks |
| Pipeline.EmbedAllOrigin | packages/core/src/ast-chunking.ts:417-462 | every chunk after the embedded pass comes from one input chunk: it is that chunk, kept because no nested run was accepted, or a sub-chunk of that chunk's accepted nested run, with its lines shifted under the host and the host's type and language recorded |
| Pipeline.EmbedAllContains | packages/core/src/ast-chunking.ts:417-462 | whatever one input chunk contributes appears in the pass's result |
| Pipeline.EmbedAllCovers | packages/core/src/ast-chunking.ts:417-462 | no input chunk is dropped: a chunk without an accepted nested run is in the result, and otherwise every sub-chunk of its nested run is in the result, moved under it |
| Pipeline.EmbedAllLength | packages/core/src/ast-chunking.ts:417-462 | the embedded pass never shortens the list |

## Left out

- `loadSynthParser` and the parser cache (`ast-chunking.ts:96-149`) are not modelled: they load plugin modules dynamically and memoise them.
- `parseWithSynth` (`ast-chunking.ts:387-403`) is the `parse` function of the `Env`. A thrown error or a missing parser is its `None`. Parser options depend only on the language, so the function receives the code and the language.
- `getLanguageFromPath`, `getLanguageConfig` and `chunkText` are not part of this model. They are the other functions of the `Env`, and nothing is assumed about their results, including the size of `chunkText` pieces.
- `getSupportedLanguages` (`ast-chunking.ts:574-576`) only lists the keys of the language registry, which is not part of this model.
- `_getEmbeddedConfig` (`ast-chunking.ts:184-190`) is never called. Its `find` is modelled by `Syntax.FindRule`, which the embedded pass uses.
- `async`/`await` and the `console.error` logging are not modelled.
- `packages/core/src/db/migrations.ts` and `packages/core/src/vector-storage.test.ts` are not modelled: they are database I/O and tests against a store whose source is not available.
- Cyclic trees are excluded: trees are assumed to give every child a larger id than its parent. The source does not guard against cycles, and on a cycle `extractSubChunks` would not terminate.
- Lengths count Dafny characters, while JavaScript's `.length` counts UTF-16 code units. They differ only for characters outside the Basic Multilingual Plane.
- `toLowerCase` is modelled for ASCII letters only.
- Sizes and line numbers are integers. NaN, fractional and infinite option values are not modelled, and metadata numbers are integers.
- Options are either given or absent (`undefined`, so the default applies); `null` option values are not modelled.
- The tree's `created`, `modified` and `meta.data` fields are not modelled. The chunker never reads them. `root` and the nodes' `parent` are kept as fields but are unused too, because the chunker starts from `nodes[0]`.
- Pipeline.ParsedNonBlankNotEmpty: covers parsed code only. On the two fallback paths, the result is non-empty exactly when `chunkText` returns pieces, and `chunkText` is not part of this model.
