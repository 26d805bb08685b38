/**
 * The chunking pipeline (chunkCodeByAST, ast-chunking.ts:483-543) and the
 * embedded-code pass (parseEmbeddedChunks, ast-chunking.ts:408-465).
 *
 * Language detection, the language registry, the parser and chunkText are
 * not part of this model: they reach the pipeline through an `Env` of
 * functions. `Chunked` and `EmbeddedChunks` specify the imperative
 * `ChunkCodeByAST` and `ParseEmbeddedChunks`, which call each other exactly
 * as the source does: the recursive call switches embedding off.
 */
module Pipeline {
  import opened Base
  import opened Syntax
  import opened Chunks
  import opened Merger
  import opened Splitter
  import opened Extractor
  import opened Fence

  /** ASTChunkOptions: every field may be left out. */
  datatype ChunkOptions = ChunkOptions(
    maxChunkSize: Option<int>,
    minChunkSize: Option<int>,
    preserveContext: Option<bool>,
    nodeTypes: Option<seq<string>>,
    parseEmbedded: Option<bool>)

  const DefaultMaxChunkSize := 1000
  const DefaultMinChunkSize := 100

  function MaxSize(opts: ChunkOptions): int { opts.maxChunkSize.GetOr(DefaultMaxChunkSize) }
  function MinSize(opts: ChunkOptions): int { opts.minChunkSize.GetOr(DefaultMinChunkSize) }
  predicate PreserveContext(opts: ChunkOptions) { opts.preserveContext.GetOr(true) }
  predicate EmbeddingOn(opts: ChunkOptions) { opts.parseEmbedded.GetOr(true) }

  /** The collaborators the pipeline consults: the language of a path, the
      configuration of a language, the parser (which fails with None), and
      chunkText. */
  datatype Env = Env(
    languageFromPath: string -> Option<string>,
    languageConfig: string -> Option<LanguageConfig>,
    parse: (string, string) -> Option<ParsedTree>,
    chunkText: ChunkText)

  /** The detected language; an empty name counts as none. */
  function Language(env: Env, filePath: string): (r: Option<string>)
    ensures r.Some? ==> r.value != "" && env.languageFromPath(filePath) == r
    ensures r.None? ==> env.languageFromPath(filePath) in {None, Some("")}
  {
    match env.languageFromPath(filePath)
    case Some(l) => if l != "" then Some(l) else None
    case None => None
  }

  // ---------------------------------------------------------------------
  // Fallbacks
  // ---------------------------------------------------------------------

  predicate IsFallback(c: Chunk) {
    Flag(c.metadata, "fallback")
  }

  /** createFallbackChunks: one `text` chunk per piece of chunkText, with no
      line information, tagged as a fallback with its index. */
  function FallbackChunks(pieces: seq<string>): (r: seq<Chunk>)
    ensures |r| == |pieces|
    ensures forall i :: 0 <= i < |r| ==>
              r[i].content == pieces[i] && r[i].chunkType == "text" && r[i].startLine == 0 && r[i].endLine == 0
              && IsFallback(r[i]) && Lookup(r[i].metadata, "index") == Num(i)
    ensures forall i :: 0 <= i < |r| ==> r[i].metadata == map["fallback" := Bool(true), "index" := Num(i)]
  {
    seq(|pieces|, i requires 0 <= i < |pieces| =>
      Chunk(pieces[i], "text", 0, 0, map["fallback" := Bool(true), "index" := Num(i)]))
  }

  /** The whole code as one `unknown` chunk spanning all its lines. */
  function NoBoundaryChunk(code: string): (r: Chunk)
    ensures r.content == code && r.startLine == 1 && r.endLine == Count(code, '\n') + 1
    ensures r.chunkType == "unknown"
    ensures r.metadata == map["fallback" := Bool(true), "reason" := Str("no-semantic-boundaries")]
    ensures IsFallback(r)
  {
    Chunk(code, "unknown", 1, |Split(code, '\n')|,
          map["fallback" := Bool(true), "reason" := Str("no-semantic-boundaries")])
  }

  /** Step 7: when merging left nothing but the code is not blank, the whole
      code becomes one chunk. */
  function Finalize(code: string, merged: seq<Chunk>): (r: seq<Chunk>)
    ensures |merged| > 0 ==> r == merged
    ensures |merged| == 0 && IsBlank(code) ==> r == []
    ensures |merged| == 0 && !IsBlank(code) ==> r == [NoBoundaryChunk(code)]
  {
    TrimEmptyIffBlank(code);
    if |merged| == 0 && |Trim(code)| > 0 then [NoBoundaryChunk(code)] else merged
  }

  // ---------------------------------------------------------------------
  // Embedded code
  // ---------------------------------------------------------------------

  /** `{ type: chunk.type, data: chunk.metadata }` seen as a node. */
  function ChunkNode(chunk: Chunk): Node {
    Node(0, chunk.chunkType, None, None, [], chunk.metadata)
  }

  /** The languages an embedded block is parsed in: a non-empty name other
      than `text` and `plain`. */
  predicate Parseable(lang: string) {
    lang != "" && lang != "text" && lang != "plain"
  }

  /** The language a chunk is re-parsed in, if it is an embedded block under
      a recursive rule with a parseable language. */
  function EmbedLanguage(chunk: Chunk, rules: seq<EmbeddedRule>): (r: Option<string>)
    ensures r.Some? ==> Parseable(r.value)
    ensures r.Some? ==> exists k :: 0 <= k < |rules| && rules[k].nodeType == chunk.chunkType && rules[k].recursive
    ensures var rule := FindRule(rules, chunk.chunkType);
            r.Some? <==> rule.Some? && rule.value.recursive
                         && DetectEmbeddedLanguage(ChunkNode(chunk), rule.value).Some?
                         && Parseable(DetectEmbeddedLanguage(ChunkNode(chunk), rule.value).value)
    ensures r.Some? ==> r == DetectEmbeddedLanguage(ChunkNode(chunk), FindRule(rules, chunk.chunkType).value)
  {
    match FindRule(rules, chunk.chunkType)
    case None => None
    case Some(rule) =>
      if !rule.recursive then None
      else match DetectEmbeddedLanguage(ChunkNode(chunk), rule)
        case Some(lang) => if Parseable(lang) then Some(lang) else None
        case None => None
  }

  /** A sub-chunk moved under its host: its lines are counted from the host's
      first line, and it records the host's type and the language. */
  function Reanchored(host: Chunk, lang: string, sub: Chunk): (r: Chunk)
    ensures r.content == sub.content && r.chunkType == sub.chunkType
    ensures r.startLine - host.startLine == sub.startLine - 1
    ensures r.endLine - host.startLine == sub.endLine - 1
    ensures r.metadata.Keys == sub.metadata.Keys + {"embeddedIn", "embeddedLanguage"}
    ensures Lookup(r.metadata, "embeddedIn") == Str(host.chunkType)
    ensures Lookup(r.metadata, "embeddedLanguage") == Str(lang)
    ensures forall key :: key in sub.metadata && key != "embeddedIn" && key != "embeddedLanguage"
              ==> r.metadata[key] == sub.metadata[key]
  {
    Chunk(sub.content, sub.chunkType,
          host.startLine + (sub.startLine - 1), host.startLine + (sub.endLine - 1),
          sub.metadata["embeddedIn" := Str(host.chunkType)]["embeddedLanguage" := Str(lang)])
  }

  function ReanchorAll(host: Chunk, lang: string, subs: seq<Chunk>): (r: seq<Chunk>)
    ensures |r| == |subs|
    ensures forall i :: 0 <= i < |subs| ==> r[i] == Reanchored(host, lang, subs[i])
    decreases |subs|
  {
    if |subs| == 0 then []
    else ReanchorAll(host, lang, subs[..|subs| - 1]) + [Reanchored(host, lang, subs[|subs| - 1])]
  }

  /** Options for the recursive call: the caller's options with embedding
      switched off. */
  function SubOptions(opts: ChunkOptions): ChunkOptions {
    opts.(parseEmbedded := Some(false))
  }

  /** The sub-chunks replace their host only if there are some and the first
      is not a fallback chunk. */
  predicate Accepted(subs: seq<Chunk>) {
    |subs| > 0 && !IsFallback(subs[0])
  }

  // ---------------------------------------------------------------------
  // The specification: chunkCodeByAST and parseEmbeddedChunks
  // ---------------------------------------------------------------------

  /** The chunks of an embedded block: the host's re-parsed content moved
      under the host, or the host itself. */
  function EmbedOne(env: Env, chunk: Chunk, rules: seq<EmbeddedRule>, opts: ChunkOptions): seq<Chunk>
    decreases 1, 0, 0
  {
    match EmbedLanguage(chunk, rules)
    case None => [chunk]
    case Some(lang) =>
      var subs := Chunked(env, StripFence(chunk.content), "file." + lang, SubOptions(opts));
      if Accepted(subs) then ReanchorAll(chunk, lang, subs) else [chunk]
  }

  function EmbedAll(env: Env, chunks: seq<Chunk>, rules: seq<EmbeddedRule>, opts: ChunkOptions): seq<Chunk>
    decreases 1, 1, |chunks|
  {
    if |chunks| == 0 then []
    else EmbedAll(env, chunks[..|chunks| - 1], rules, opts) + EmbedOne(env, chunks[|chunks| - 1], rules, opts)
  }

  /** The specification of ParseEmbeddedChunks. */
  function EmbeddedChunks(env: Env, chunks: seq<Chunk>, config: Option<LanguageConfig>, opts: ChunkOptions): seq<Chunk>
    decreases 1, 2, 0
  {
    if config.None? || config.value.embedded.None? then chunks
    else EmbedAll(env, chunks, config.value.embedded.value, opts)
  }

  /** Steps 4 to 7 on a parsed tree. */
  function TreeChunks(env: Env, code: string, tree: ParsedTree, config: Option<LanguageConfig>, opts: ChunkOptions): seq<Chunk>
    decreases (if EmbeddingOn(opts) then 1 else 0), 3, 0
  {
    var semantic := SemanticChunks(tree, config,
                                   ExtractOptions(MaxSize(opts), MinSize(opts), PreserveContext(opts), opts.nodeTypes),
                                   env.chunkText);
    var chunks := if EmbeddingOn(opts) && config.Some? && config.value.embedded.Some?
                  then EmbeddedChunks(env, semantic, config, opts) else semantic;
    Finalize(code, MergedChunks(chunks, MinSize(opts)))
  }

  /** The specification of ChunkCodeByAST. */
  function Chunked(env: Env, code: string, filePath: string, opts: ChunkOptions): seq<Chunk>
    decreases (if EmbeddingOn(opts) then 1 else 0), 4, 0
  {
    match Language(env, filePath)
    case None => FallbackChunks(env.chunkText(code, MaxSize(opts)))
    case Some(language) =>
      match env.parse(code, language)
      case None => FallbackChunks(env.chunkText(code, MaxSize(opts)))
      case Some(tree) => TreeChunks(env, code, tree, env.languageConfig(language), opts)
  }

  // ---------------------------------------------------------------------
  // The imperative pipeline
  // ---------------------------------------------------------------------

  /** The language decision of parseEmbeddedChunks for one chunk: the first
      rule for its type must be recursive and name a parseable language. */
  method EmbeddedLanguageOf(chunk: Chunk, rules: seq<EmbeddedRule>) returns (lang: Option<string>)
    ensures var rule := FindRule(rules, chunk.chunkType);
            lang.Some? <==> rule.Some? && rule.value.recursive
                            && DetectEmbeddedLanguage(ChunkNode(chunk), rule.value).Some?
                            && Parseable(DetectEmbeddedLanguage(ChunkNode(chunk), rule.value).value)
    ensures lang.Some? ==> lang == DetectEmbeddedLanguage(ChunkNode(chunk), FindRule(rules, chunk.chunkType).value)
    ensures lang == EmbedLanguage(chunk, rules)
  {
    lang := None;
    var embeddedConfig := FindRule(rules, chunk.chunkType);
    if embeddedConfig.Some? && embeddedConfig.value.recursive {
      var embeddedLang := DetectEmbeddedLanguage(ChunkNode(chunk), embeddedConfig.value);
      if embeddedLang.Some? && embeddedLang.value != "" && embeddedLang.value != "text" && embeddedLang.value != "plain" {
        lang := embeddedLang;
      }
    }
  }

  /** The loop that moves the sub-chunks of an embedded block under it. */
  method ReanchorChunks(chunk: Chunk, lang: string, subChunks: seq<Chunk>) returns (moved: seq<Chunk>)
    ensures moved == ReanchorAll(chunk, lang, subChunks)
  {
    moved := [];
    for j := 0 to |subChunks|
      invariant moved == ReanchorAll(chunk, lang, subChunks[..j])
    {
      var subChunk := subChunks[j];
      assert subChunks[..j + 1][..j] == subChunks[..j];
      moved := moved + [Chunk(
        subChunk.content,
        subChunk.chunkType,
        chunk.startLine + (subChunk.startLine - 1),
        chunk.startLine + (subChunk.endLine - 1),
        subChunk.metadata["embeddedIn" := Str(chunk.chunkType)]["embeddedLanguage" := Str(lang)])];
    }
    assert subChunks[..|subChunks|] == subChunks;
  }

  lemma EmbedAllStep(env: Env, chunks: seq<Chunk>, rules: seq<EmbeddedRule>, opts: ChunkOptions, k: nat)
    requires k < |chunks|
    ensures EmbedAll(env, chunks[..k + 1], rules, opts) == EmbedAll(env, chunks[..k], rules, opts) + EmbedOne(env, chunks[k], rules, opts)
  {
    assert chunks[..k + 1][..k] == chunks[..k];
  }

  /** parseEmbeddedChunks */
  method ParseEmbeddedChunks(env: Env, chunks: seq<Chunk>, config: Option<LanguageConfig>, opts: ChunkOptions)
    returns (result: seq<Chunk>)
    ensures result == EmbeddedChunks(env, chunks, config, opts)
    decreases 1, 0
  {
    if config.None? || config.value.embedded.None? {
      return chunks;
    }
    var rules := config.value.embedded.value;

    result := [];
    for k := 0 to |chunks|
      invariant result == EmbedAll(env, chunks[..k], rules, opts)
    {
      var chunk := chunks[k];
      EmbedAllStep(env, chunks, rules, opts, k);
      var embeddedLang := EmbeddedLanguageOf(chunk, rules);
      if embeddedLang.Some? {
        var lang := embeddedLang.value;
        // Strip the markdown fence, if any
        var codeContent := StripFence(chunk.content);
        var subChunks := ChunkCodeByAST(env, codeContent, "file." + lang, opts.(parseEmbedded := Some(false)));
        if |subChunks| > 0 && !Flag(subChunks[0].metadata, "fallback") {
          var moved := ReanchorChunks(chunk, lang, subChunks);
          result := result + moved;
          continue;
        }
      }
      result := result + [chunk];
    }
    assert chunks[..|chunks|] == chunks;
  }

  /** chunkCodeByAST */
  method ChunkCodeByAST(env: Env, code: string, filePath: string, opts: ChunkOptions) returns (result: seq<Chunk>)
    ensures result == Chunked(env, code, filePath, opts)
    decreases (if EmbeddingOn(opts) then 1 else 0), 1
  {
    var maxChunkSize := opts.maxChunkSize.GetOr(1000);
    var minChunkSize := opts.minChunkSize.GetOr(100);
    var preserveContext := opts.preserveContext.GetOr(true);
    var parseEmbedded := opts.parseEmbedded.GetOr(true);

    // 1. Detect language from file path
    var language := env.languageFromPath(filePath);
    if language.None? || language.value == "" {
      return FallbackChunks(env.chunkText(code, maxChunkSize));
    }

    // 2. Get language config
    var config := env.languageConfig(language.value);

    // 3. Parse AST
    var tree := env.parse(code, language.value);
    if tree.None? {
      return FallbackChunks(env.chunkText(code, maxChunkSize));
    }

    // 4. Extract semantic chunks
    var chunks := ExtractSemanticChunks(tree.value, config,
                                        ExtractOptions(maxChunkSize, minChunkSize, preserveContext, opts.nodeTypes),
                                        env.chunkText);

    // 5. Parse embedded code
    if parseEmbedded && config.Some? && config.value.embedded.Some? {
      chunks := ParseEmbeddedChunks(env, chunks, config, opts);
    }

    // 6. Merge small chunks
    var merged := MergeSmallChunks(chunks, minChunkSize);

    // 7. Fallback if no chunks extracted
    TrimEmptyIffBlank(code);
    if |merged| == 0 && |Trim(code)| > 0 {
      return [NoBoundaryChunk(code)];
    }

    return merged;
  }

  /** chunkCodeByASTSimple: the contents of the chunks, in order. */
  method ChunkCodeByASTSimple(env: Env, code: string, filePath: string, opts: ChunkOptions) returns (contents: seq<string>)
    ensures |contents| == |Chunked(env, code, filePath, opts)|
    ensures forall i :: 0 <= i < |contents| ==> contents[i] == Chunked(env, code, filePath, opts)[i].content
  {
    var chunks := ChunkCodeByAST(env, code, filePath, opts);
    contents := seq(|chunks|, i requires 0 <= i < |chunks| => chunks[i].content);
  }

  // ---------------------------------------------------------------------
  // Properties
  // ---------------------------------------------------------------------

  /** Without a usable language, or when parsing fails, the code is cut by
      chunkText alone and every chunk is a fallback chunk. */
  lemma FallbackWithoutTree(env: Env, code: string, filePath: string, opts: ChunkOptions)
    requires Language(env, filePath).None? || env.parse(code, Language(env, filePath).value).None?
    ensures var r := Chunked(env, code, filePath, opts);
            |r| == |env.chunkText(code, MaxSize(opts))|
            && forall i :: 0 <= i < |r| ==> r[i].content == env.chunkText(code, MaxSize(opts))[i] && IsFallback(r[i])
  {
  }

  /** A parsed file that is not blank never yields an empty result. */
  lemma ParsedNonBlankNotEmpty(env: Env, code: string, filePath: string, opts: ChunkOptions)
    requires Language(env, filePath).Some? && env.parse(code, Language(env, filePath).value).Some?
    requires !IsBlank(code)
    ensures |Chunked(env, code, filePath, opts)| > 0
  {
  }

  /** A language without configuration and no requested node types: nothing
      is extracted, so a parsed file becomes the single whole-file fallback
      chunk, or nothing at all when it is blank. */
  lemma NoConfigNoBoundaries(env: Env, code: string, filePath: string, opts: ChunkOptions, tree: ParsedTree)
    requires Language(env, filePath).Some? && env.parse(code, Language(env, filePath).value) == Some(tree)
    requires env.languageConfig(Language(env, filePath).value).None? && opts.nodeTypes.None?
    ensures Chunked(env, code, filePath, opts) == if IsBlank(code) then [] else [NoBoundaryChunk(code)]
  {
    NoConfigNoChunks(tree, ExtractOptions(MaxSize(opts), MinSize(opts), PreserveContext(opts), opts.nodeTypes), env.chunkText);
    MergePartition([], MinSize(opts));
  }

  /** A run with embedding switched off, as every nested run is, goes
      straight from extraction to merging. */
  lemma EmbeddingOffSkipsPass(env: Env, code: string, tree: ParsedTree, config: Option<LanguageConfig>, opts: ChunkOptions)
    requires !EmbeddingOn(opts)
    ensures !EmbeddingOn(SubOptions(opts))
    ensures TreeChunks(env, code, tree, config, opts)
            == Finalize(code, MergedChunks(SemanticChunks(tree, config,
                                                          ExtractOptions(MaxSize(opts), MinSize(opts), PreserveContext(opts), opts.nodeTypes),
                                                          env.chunkText),
                                           MinSize(opts)))
  {
  }

  /** A chunk with no recursive rule for its type is kept as it is. */
  lemma {:induction false} EmbedAllKeeps(env: Env, chunks: seq<Chunk>, rules: seq<EmbeddedRule>, opts: ChunkOptions)
    requires forall rule, i :: rule in rules && 0 <= i < |chunks| && rule.nodeType == chunks[i].chunkType ==> !rule.recursive
    ensures EmbedAll(env, chunks, rules, opts) == chunks
    decreases |chunks|
  {
    if |chunks| > 0 {
      var init := chunks[..|chunks| - 1];
      var last := chunks[|chunks| - 1];
      EmbedAllKeeps(env, init, rules, opts);
      var rule := FindRule(rules, last.chunkType);
      if rule.Some? {
        assert rule.value in rules && rule.value.nodeType == chunks[|chunks| - 1].chunkType;
        assert !rule.value.recursive;
      }
      assert EmbedLanguage(last, rules).None?;
      EmbedOneCases(env, last, rules, opts);
      assert init + [last] == chunks;
    }
  }

  /** The outcome of the nested run for one chunk: its language and the
      accepted sub-chunks, or None when the chunk is kept as it is. */
  ghost function Reparse(env: Env, host: Chunk, rules: seq<EmbeddedRule>, opts: ChunkOptions): Option<(string, seq<Chunk>)> {
    match EmbedLanguage(host, rules)
    case None => None
    case Some(lang) =>
      var subs := Chunked(env, StripFence(host.content), "file." + lang, SubOptions(opts));
      if Accepted(subs) then Some((lang, subs)) else None
  }

  /** `c` is one of the sub-chunks of the nested run for `host`, moved under
      it. */
  ghost predicate ReparsedFrom(env: Env, host: Chunk, rules: seq<EmbeddedRule>, opts: ChunkOptions, c: Chunk) {
    match Reparse(env, host, rules, opts)
    case None => false
    case Some((lang, subs)) => exists k :: 0 <= k < |subs| && c == Reanchored(host, lang, subs[k])
  }

  /** Every chunk after the embedded-code pass comes from one input chunk:
      it is that chunk, kept because no nested run replaced it, or one of
      the sub-chunks of its accepted nested run with its lines shifted under
      it and its host's type and language recorded. */
  lemma {:induction false} EmbedAllOrigin(env: Env, chunks: seq<Chunk>, rules: seq<EmbeddedRule>, opts: ChunkOptions, c: Chunk)
    requires c in EmbedAll(env, chunks, rules, opts)
    ensures exists i :: 0 <= i < |chunks|
              && ((Reparse(env, chunks[i], rules, opts).None? && c == chunks[i])
                  || ReparsedFrom(env, chunks[i], rules, opts, c))
    decreases |chunks|
  {
    var n := |chunks|;
    var init := chunks[..n - 1];
    var last := chunks[n - 1];
    if c in EmbedAll(env, init, rules, opts) {
      EmbedAllOrigin(env, init, rules, opts, c);
      var i :| 0 <= i < |init|
               && ((Reparse(env, init[i], rules, opts).None? && c == init[i])
                   || ReparsedFrom(env, init[i], rules, opts, c));
      assert chunks[i] == init[i];
    } else {
      assert c in EmbedOne(env, last, rules, opts);
      match Reparse(env, last, rules, opts)
      case None =>
        assert c == last;
      case Some((lang, subs)) =>
        var r := ReanchorAll(last, lang, subs);
        var k :| 0 <= k < |r| && r[k] == c;
        assert ReparsedFrom(env, last, rules, opts, c);
    }
  }

  /** One chunk's share of the pass, as `Reparse` decides it. */
  lemma EmbedOneCases(env: Env, host: Chunk, rules: seq<EmbeddedRule>, opts: ChunkOptions)
    ensures Reparse(env, host, rules, opts).None? ==> EmbedOne(env, host, rules, opts) == [host]
    ensures Reparse(env, host, rules, opts).Some? ==>
              var (lang, subs) := Reparse(env, host, rules, opts).value;
              |subs| > 0 && EmbedOne(env, host, rules, opts) == ReanchorAll(host, lang, subs)
  {
  }

  /** Each chunk's share of the pass appears in the pass's result. */
  lemma {:induction false} EmbedAllContains(env: Env, chunks: seq<Chunk>, rules: seq<EmbeddedRule>, opts: ChunkOptions, i: nat)
    requires i < |chunks|
    ensures forall x :: x in EmbedOne(env, chunks[i], rules, opts) ==> x in EmbedAll(env, chunks, rules, opts)
    decreases |chunks|
  {
    var init := chunks[..|chunks| - 1];
    assert EmbedAll(env, chunks, rules, opts)
           == EmbedAll(env, init, rules, opts) + EmbedOne(env, chunks[|chunks| - 1], rules, opts);
    if i < |chunks| - 1 {
      EmbedAllContains(env, init, rules, opts, i);
      assert chunks[i] == init[i];
    }
  }

  /** The pass never shortens the list: every chunk contributes at least
      one chunk. */
  lemma {:induction false} EmbedAllLength(env: Env, chunks: seq<Chunk>, rules: seq<EmbeddedRule>, opts: ChunkOptions)
    ensures |EmbedAll(env, chunks, rules, opts)| >= |chunks|
    decreases |chunks|
  {
    if |chunks| > 0 {
      EmbedAllLength(env, chunks[..|chunks| - 1], rules, opts);
      EmbedOneCases(env, chunks[|chunks| - 1], rules, opts);
    }
  }

  /** No input chunk is dropped by the embedded-code pass: a chunk without
      an accepted nested run is kept, and otherwise every sub-chunk of its
      nested run appears, moved under it. */
  lemma EmbedAllCovers(env: Env, chunks: seq<Chunk>, rules: seq<EmbeddedRule>, opts: ChunkOptions, i: nat)
    requires i < |chunks|
    ensures Reparse(env, chunks[i], rules, opts).None? ==> chunks[i] in EmbedAll(env, chunks, rules, opts)
    ensures Reparse(env, chunks[i], rules, opts).Some? ==>
              var (lang, subs) := Reparse(env, chunks[i], rules, opts).value;
              forall k :: 0 <= k < |subs| ==> Reanchored(chunks[i], lang, subs[k]) in EmbedAll(env, chunks, rules, opts)
  {
    EmbedOneCases(env, chunks[i], rules, opts);
    EmbedAllContains(env, chunks, rules, opts, i);
    if Reparse(env, chunks[i], rules, opts).Some? {
      var (lang, subs) := Reparse(env, chunks[i], rules, opts).value;
      forall k | 0 <= k < |subs|
        ensures Reanchored(chunks[i], lang, subs[k]) in EmbedAll(env, chunks, rules, opts)
      {
        assert ReanchorAll(chunks[i], lang, subs)[k] == Reanchored(chunks[i], lang, subs[k]);
      }
    }
  }
}
