/**
 * The parsed syntax tree as the chunker sees it (a flat node table indexed by
 * integer ids), the per-language configuration it consults, the tree
 * accessors, and the boundary / context / embedded-language classifiers.
 */
module Syntax {
  import opened Base

  /** Zero-based line and column, and a character offset into the source. */
  datatype Position = Position(line: nat, column: nat, offset: nat)

  /** `end` is exclusive. */
  datatype Span = Span(start: Position, end: Position)

  /** A node of the table. A node without a span is synthetic and never
      chunked directly; `data` is its attribute bag (an absent bag is the
      empty map, which every reader treats the same way). */
  datatype Node = Node(
    id: nat,
    nodeType: string,
    span: Option<Span>,
    parent: Option<nat>,
    children: seq<nat>,
    data: Bag)

  datatype Tree = Tree(language: string, source: string, root: nat, nodes: seq<Node>)

  /** Every child id is larger than the id of its parent, so following child
      links always ends. Ids that are out of range are allowed: the chunker
      skips them. */
  predicate WellFormed(t: Tree) {
    forall i, k :: 0 <= i < |t.nodes| && 0 <= k < |t.nodes[i].children| ==> t.nodes[i].children[k] > i
  }

  /** The trees the parser hands to the chunker. */
  type ParsedTree = t: Tree | WellFormed(t) witness Tree("", "", 0, [])

  /** One entry of a language's `embedded` list. */
  datatype EmbeddedRule = EmbeddedRule(
    nodeType: string,
    recursive: bool,
    langAttr: Option<string>,
    defaultLanguage: Option<string>)

  /** The part of a language's configuration the chunker reads. */
  datatype LanguageConfig = LanguageConfig(
    boundaries: seq<string>,
    contextTypes: Option<seq<string>>,
    embedded: Option<seq<EmbeddedRule>>)

  // ---------------------------------------------------------------------
  // Tree accessors
  // ---------------------------------------------------------------------

  /** `s.slice(from, to)` for non-negative arguments: both ends are clamped to
      the length, and a reversed range is empty. */
  function Slice(s: string, from: nat, to: nat): (r: string)
    ensures |r| <= |s|
    ensures from <= to <= |s| ==> r == s[from..to]
  {
    var a := if from < |s| then from else |s|;
    var b := if to < |s| then to else |s|;
    if a < b then s[a..b] else ""
  }

  /** getSourceText: the text a node covers. */
  function SourceText(tree: Tree, node: Node): (r: string)
    ensures node.span.None? ==> r == ""
    ensures node.span.Some? && node.span.value.start.offset <= node.span.value.end.offset <= |tree.source|
            ==> r == tree.source[node.span.value.start.offset..node.span.value.end.offset]
    ensures |r| <= |tree.source|
  {
    if node.span.None? then ""
    else Slice(tree.source, node.span.value.start.offset, node.span.value.end.offset)
  }

  /** getNode: `tree.nodes[id]`, undefined when out of range. */
  function GetNode(tree: Tree, id: nat): (r: Option<Node>)
    ensures r.Some? <==> id < |tree.nodes|
    ensures r.Some? ==> r.value == tree.nodes[id]
  {
    if id < |tree.nodes| then Some(tree.nodes[id]) else None
  }

  // ---------------------------------------------------------------------
  // Classifiers
  // ---------------------------------------------------------------------

  /** isSemanticBoundary: only a configured boundary type is a boundary, and
      without a configuration nothing is. */
  function IsSemanticBoundary(node: Node, config: Option<LanguageConfig>): (r: bool)
    ensures config.None? ==> !r
    ensures r <==> config.Some? && node.nodeType in config.value.boundaries
  {
    if config.None? then false else node.nodeType in config.value.boundaries
  }

  /** `nodes.filter(node => types.includes(node.type))` */
  function FilterByType(nodes: seq<Node>, types: seq<string>): (r: seq<Node>)
    ensures |r| <= |nodes|
    ensures forall k :: 0 <= k < |r| ==> r[k] in nodes && r[k].nodeType in types
    ensures forall i :: 0 <= i < |nodes| && nodes[i].nodeType in types ==> nodes[i] in r
  {
    if |nodes| == 0 then []
    else (if nodes[0].nodeType in types then [nodes[0]] else []) + FilterByType(nodes[1..], types)
  }

  /** Filtering distributes over concatenation, so the kept nodes stay in
      table order. */
  lemma {:induction false} FilterByTypeConcat(a: seq<Node>, b: seq<Node>, types: seq<string>)
    ensures FilterByType(a + b, types) == FilterByType(a, types) + FilterByType(b, types)
  {
    if |a| > 0 {
      assert (a + b)[1..] == a[1..] + b;
      FilterByTypeConcat(a[1..], b, types);
    } else {
      assert a + b == b;
    }
  }

  /** extractContextNodes: the nodes, in table order, whose type is one of the
      configured context types; none without a configuration or without
      context types. */
  function ExtractContextNodes(tree: Tree, config: Option<LanguageConfig>): (r: seq<Node>)
    ensures config.None? || config.value.contextTypes.None? ==> r == []
    ensures config.Some? && config.value.contextTypes.Some? ==>
              (forall k :: 0 <= k < |r| ==> r[k] in tree.nodes && r[k].nodeType in config.value.contextTypes.value)
              && (forall i :: 0 <= i < |tree.nodes| && tree.nodes[i].nodeType in config.value.contextTypes.value
                    ==> tree.nodes[i] in r)
  {
    if config.None? || config.value.contextTypes.None? then []
    else FilterByType(tree.nodes, config.value.contextTypes.value)
  }

  /** The language named by the node's attribute `langAttr`, when the rule has
      a non-empty attribute name and the attribute is a non-empty string. */
  function AttributeLanguage(node: Node, rule: EmbeddedRule): Option<string> {
    if rule.langAttr.Some? && rule.langAttr.value != "" then
      match Lookup(node.data, rule.langAttr.value)
      case Str(s) => if |s| > 0 then Some(s) else None
      case _ => None
    else None
  }

  /** detectEmbeddedLanguage: the lower-cased attribute value when it is a
      non-empty string, otherwise the rule's default language. */
  function DetectEmbeddedLanguage(node: Node, rule: EmbeddedRule): (r: Option<string>)
    ensures AttributeLanguage(node, rule).Some? ==> r == Some(ToLower(AttributeLanguage(node, rule).value))
    ensures AttributeLanguage(node, rule).None? ==> r == rule.defaultLanguage
    ensures r != rule.defaultLanguage ==>
              r.Some? && |r.value| > 0 && forall i :: 0 <= i < |r.value| ==> !('A' <= r.value[i] <= 'Z')
  {
    if rule.langAttr.Some? && rule.langAttr.value != "" then
      var lang := Lookup(node.data, rule.langAttr.value);
      if lang.Str? && |lang.s| > 0 then Some(ToLower(lang.s)) else rule.defaultLanguage
    else rule.defaultLanguage
  }

  /** `rules.find(e => e.nodeType === nodeType)`: the first matching rule. */
  function FindRule(rules: seq<EmbeddedRule>, nodeType: string): (r: Option<EmbeddedRule>)
    ensures r.None? <==> forall k :: 0 <= k < |rules| ==> rules[k].nodeType != nodeType
    ensures r.Some? ==> r.value in rules && r.value.nodeType == nodeType
    ensures r.Some? ==> exists k :: 0 <= k < |rules| && rules[k] == r.value && r.value.nodeType == nodeType
                          && forall j :: 0 <= j < k ==> rules[j].nodeType != nodeType
  {
    if |rules| == 0 then None
    else if rules[0].nodeType == nodeType then Some(rules[0])
    else
      var r := FindRule(rules[1..], nodeType);
      assert r.Some? ==> exists k :: 0 <= k < |rules[1..]| && rules[1..][k] == r.value && r.value.nodeType == nodeType
                          && forall j :: 0 <= j < k ==> rules[1..][j].nodeType != nodeType;
      r
  }
}
