/**
  The `Jerry` controller: it caches the leaf map of one node of the
  document, converts a selection's (text node, local offset) endpoints
  into flat offsets within that node, and looks up the spans of the
  elements that carry a highlight class.

  The browser's selection is passed in as a value, and the document-wide
  class query is the pre-order walk `Marked` from the document's top node.
*/
module Controller {
  import opened Tree
  import opened Indexer
  import opened Surgery
  import opened Highlight

  /** The first range of a selection: its two boundary points. */
  datatype Range = Range(startContainer: NodeId, startOffset: int, endContainer: NodeId, endOffset: int)

  /**
    `document.querySelectorAll('.' + c)` below `id`: every non-text node
    carrying the class `c`, in document order (a node before its
    descendants, earlier siblings first).
  */
  function Marked(nodes: Arena, ghost height: Heights, id: NodeId, c: string): seq<NodeId>
    requires Ranked(nodes, height) && id in nodes
    decreases height[id] + 1, 0, 0
  {
    (if nodes[id].kind != Text && c in nodes[id].classes then [id] else [])
    + (if nodes[id].kind == Element then MarkedKids(nodes, height, nodes[id].children, c) else [])
  }

  function MarkedKids(nodes: Arena, ghost height: Heights, kids: seq<NodeId>, c: string): seq<NodeId>
    requires Ranked(nodes, height) && forall k | k in kids :: k in nodes
    decreases KidsRank(height, kids), 1, |kids|
  {
    if kids == [] then [] else Marked(nodes, height, kids[0], c) + MarkedKids(nodes, height, kids[1..], c)
  }

  /** What the class query selects: a non-text node whose class list holds `c`. */
  predicate Carries(nodes: Arena, x: NodeId, c: string) {
    x in nodes && nodes[x].kind != Text && c in nodes[x].classes
  }

  /** The query finds exactly the marked nodes of the subtree. */
  lemma {:induction false} MarkedExact(nodes: Arena, height: Heights, id: NodeId, c: string)
    requires Ranked(nodes, height) && id in nodes
    ensures forall x :: x in Marked(nodes, height, id, c) <==> x in Subtree(nodes, height, id) && Carries(nodes, x, c)
    decreases height[id] + 1, 0, 0
  {
    if nodes[id].kind == Element {
      var kids := nodes[id].children;
      MarkedKidsExact(nodes, height, kids, c);
      assert Marked(nodes, height, id, c)
          == (if Carries(nodes, id, c) then [id] else []) + MarkedKids(nodes, height, kids, c);
      forall x | x in Subtree(nodes, height, id) && x != id
        ensures exists k | k in kids :: x in Subtree(nodes, height, k)
      {
      }
    }
  }

  lemma {:induction false} MarkedKidsExact(nodes: Arena, height: Heights, kids: seq<NodeId>, c: string)
    requires Ranked(nodes, height) && forall k | k in kids :: k in nodes
    ensures forall x :: x in MarkedKids(nodes, height, kids, c) <==>
              Carries(nodes, x, c) && exists k | k in kids :: x in Subtree(nodes, height, k)
    decreases KidsRank(height, kids), 1, |kids|
  {
    if kids != [] {
      assert kids[0] in kids;
      MarkedExact(nodes, height, kids[0], c);
      MarkedKidsExact(nodes, height, kids[1..], c);
      forall x ensures x in MarkedKids(nodes, height, kids, c) <==>
                       Carries(nodes, x, c) && exists k | k in kids :: x in Subtree(nodes, height, k)
      {
        if k :| k in kids && x in Subtree(nodes, height, k) {
          if k != kids[0] {
            assert k in kids[1..];
          }
        }
        if k :| k in kids[1..] && x in Subtree(nodes, height, k) {
          assert k in kids;
        }
      }
    }
  }

  /**
    The flat offset `at` is the point `k` characters into `text`: the
    characters of `text` sit in `whole` from `at - k` on.
  */
  ghost predicate PointIn(whole: string, at: int, text: string, k: int) {
    0 <= k <= |text| && 0 <= at - k && at - k + |text| <= |whole| && whole[at - k .. at - k + |text|] == text
  }

  /** `a` is a span of `root`'s flattened text that reads `x`'s flattened text. */
  ghost predicate SpanOf(nodes: Arena, height: Heights, root: NodeId, a: Address, x: NodeId)
    requires Ranked(nodes, height) && root in nodes && x in nodes
  {
    var whole := Content(nodes, height, root);
    a.root == root && 0 <= a.start <= a.end <= |whole| && whole[a.start..a.end] == Content(nodes, height, x)
  }

  /**
    `span` covers the flattened text of `root`, and `m` holds exactly the
    text nodes below `root`, each with the span that reads its characters.
  */
  ghost predicate Describes(nodes: Arena, height: Heights, root: NodeId, span: Address, m: map<NodeId, Address>)
    requires Ranked(nodes, height) && root in nodes
  {
    && span == Address(root, 0, |Content(nodes, height, root)|)
    && (forall x :: x in m <==> x in Subtree(nodes, height, root) && IsLeaf(nodes, x))
    && forall x | x in m :: x in nodes && SpanOf(nodes, height, root, m[x], x)
  }

  /** The leaf map describes the tree it was computed from. */
  lemma LeafMapDescribes(nodes: Arena, height: Heights, root: NodeId)
    requires WellFormed(nodes, height) && root in nodes
    ensures var leaves := LeafMap(nodes, height, root);
            Describes(nodes, height, root, leaves.span, ToMap(leaves.entries))
  {
    NodeMapExact(nodes, height, root);
    LeafMapExact(nodes, height, root);
    var all := ToMap(NodeMap(nodes, height, root).entries);
    var leaves := ToMap(LeafMap(nodes, height, root).entries);
    forall x | x in leaves ensures x in nodes && SpanOf(nodes, height, root, leaves[x], x) {
      assert x in all && leaves[x] == all[x];
    }
  }

  /** `map.get(x)` for every `x` of `xs`: `undefined` (`None`) for a missing key. */
  function Lookup(m: map<NodeId, Address>, xs: seq<NodeId>): (r: seq<Option<Address>>)
    ensures |r| == |xs|
    ensures forall i | 0 <= i < |xs| :: (r[i].Some? <==> xs[i] in m) && (r[i].Some? ==> r[i].value == m[xs[i]])
  {
    seq(|xs|, i requires 0 <= i < |xs| => if xs[i] in m then Some(m[xs[i]]) else None)
  }

  /**
    The spans looked up for `found` in the node map of `root`: present
    exactly for the nodes below `root`, and each reading its node's text.
  */
  ghost predicate Located(nodes: Arena, height: Heights, root: NodeId, found: seq<NodeId>, r: seq<Option<Address>>)
    requires Ranked(nodes, height) && root in nodes
  {
    && |r| == |found|
    && forall i | 0 <= i < |r| ::
         && found[i] in nodes
         && (r[i].Some? <==> found[i] in Subtree(nodes, height, root))
         && (r[i].Some? ==> SpanOf(nodes, height, root, r[i].value, found[i]))
  }

  lemma LookupLocated(nodes: Arena, height: Heights, root: NodeId, found: seq<NodeId>)
    requires WellFormed(nodes, height) && root in nodes && forall x | x in found :: x in nodes
    ensures Located(nodes, height, root, found, Lookup(ToMap(NodeMap(nodes, height, root).entries), found))
  {
    var m := ToMap(NodeMap(nodes, height, root).entries);
    var r := Lookup(m, found);
    forall i | 0 <= i < |r|
      ensures found[i] in nodes
      ensures r[i].Some? <==> found[i] in Subtree(nodes, height, root)
      ensures r[i].Some? ==> SpanOf(nodes, height, root, r[i].value, found[i])
    {
      assert found[i] in found;
      NodeMapSpan(nodes, height, root, found[i]);
    }
  }

  /** A node has an entry in the node map exactly when it lies below the root, and that entry reads it. */
  lemma NodeMapSpan(nodes: Arena, height: Heights, root: NodeId, x: NodeId)
    requires WellFormed(nodes, height) && root in nodes && x in nodes
    ensures var m := ToMap(NodeMap(nodes, height, root).entries);
            && (x in m <==> x in Subtree(nodes, height, root))
            && (x in m ==> SpanOf(nodes, height, root, m[x], x))
  {
    NodeMapExact(nodes, height, root);
  }

  class Jerry {
    const doc: Document
    var node: NodeId
    var span: Address
    /** The `map` field: the cached leaf map. */
    var leafMap: map<NodeId, Address>

    /**
      The cache describes the document as it is: `span` covers the
      node's flattened text, and `leafMap` holds exactly the node's text
      nodes, each with the span that reads its characters.
    */
    ghost predicate Indexed()
      reads this, doc
    {
      doc.Valid() && node in doc.nodes && Describes(doc.nodes, doc.height, node, span, leafMap)
    }

    /** `new Jerry(node)`: index `node` right away. */
    constructor (doc: Document, node: NodeId)
      requires doc.Valid() && node in doc.nodes
      ensures this.doc == doc && this.node == node && Indexed()
    {
      this.doc := doc;
      this.node := node;
      new;
      Refresh();
    }

    /** `refresh()`: replace the cache with the current leaf map of `node`. */
    method Refresh()
      requires doc.Valid() && node in doc.nodes
      modifies this
      ensures node == old(node) && Indexed()
      ensures var leaves := LeafMap(doc.nodes, doc.height, node);
              span == leaves.span && leafMap == ToMap(leaves.entries)
    {
      LeafMapDescribes(doc.nodes, doc.height, node);
      var leaves := LeafMap(doc.nodes, doc.height, node);
      span := leaves.span;
      leafMap := ToMap(leaves.entries);
    }

    /**
      `getNodeAddress(x)`: the cached span of `x`, `undefined` (`None`)
      when `x` is not a text node of the indexed node.
    */
    function GetNodeAddress(x: NodeId): (r: Option<Address>)
      reads this, doc
      ensures Indexed() ==> (r.Some? <==> x in Subtree(doc.nodes, doc.height, node) && IsLeaf(doc.nodes, x))
      ensures Indexed() && r.Some? ==>
                && r.value.root == node
                && PointIn(Content(doc.nodes, doc.height, node), r.value.start, doc.nodes[x].text, 0)
    {
      if x in leafMap then Some(leafMap[x]) else None
    }

    /**
      `getSelection()`: null without a selection, `IndexSizeError` when it
      has no range, and otherwise the range's boundary points as flat
      offsets: each local offset plus its text node's start.  Each flat
      offset sits as many characters into its text node's characters,
      within the node's flattened text, as the local offset says.
    */
    function GetSelection(sel: Option<seq<Range>>): (r: Result<Option<Address>>)
      reads this, doc
      requires sel.Some? && sel.value != [] ==>
                 sel.value[0].startContainer in leafMap && sel.value[0].endContainer in leafMap
      ensures sel.None? ==> r == Ok(None)
      ensures sel.Some? && sel.value == [] ==> r == Err(IndexSizeError)
      ensures sel.Some? && sel.value != [] ==> r.Ok? && r.value.Some? && r.value.value.root == node
      ensures Indexed() && sel.Some? && sel.value != [] ==>
                var g := sel.value[0];
                var whole := Content(doc.nodes, doc.height, node);
                && (0 <= g.startOffset <= |doc.nodes[g.startContainer].text| ==>
                      PointIn(whole, r.value.value.start, doc.nodes[g.startContainer].text, g.startOffset))
                && (0 <= g.endOffset <= |doc.nodes[g.endContainer].text| ==>
                      PointIn(whole, r.value.value.end, doc.nodes[g.endContainer].text, g.endOffset))
    {
      match sel
      case None => Ok(None)
      case Some(ranges) =>
        if ranges == [] then Err(IndexSizeError)
        else
          var g := ranges[0];
          var start := g.startOffset + leafMap[g.startContainer].start;
          var end := g.endOffset + leafMap[g.endContainer].start;
          Ok(Some(Address(node, start, end)))
    }

    /**
      `gatherHighlights(c)`: for every node of the page carrying the class
      `c`, in document order, its span in the node map of the indexed
      node, or `undefined` (`None`) when it lies outside that node.  Each
      span found reads that node's flattened text; adjacent spans are not
      merged.
    */
    function GatherHighlights(page: NodeId, c: string): (r: seq<Option<Address>>)
      reads this, doc
      requires doc.Valid() && page in doc.nodes && node in doc.nodes
      ensures var found := Marked(doc.nodes, doc.height, page, c);
              && (forall x :: x in found <==> x in Subtree(doc.nodes, doc.height, page) && Carries(doc.nodes, x, c))
              && Located(doc.nodes, doc.height, node, found, r)
    {
      var found := Marked(doc.nodes, doc.height, page, c);
      MarkedExact(doc.nodes, doc.height, page, c);
      SubtreeNodes(doc.nodes, doc.height, page, found);
      LookupLocated(doc.nodes, doc.height, node, found);
      Lookup(ToMap(NodeMap(doc.nodes, doc.height, node).entries), found)
    }
  }

  lemma SubtreeNodes(nodes: Arena, height: Heights, page: NodeId, found: seq<NodeId>)
    requires Ranked(nodes, height) && page in nodes
    requires forall x | x in found :: x in Subtree(nodes, height, page)
    ensures forall x | x in found :: x in nodes
  {
    forall x | x in found ensures x in nodes {
      SubtreeBelow(nodes, height, page, x);
    }
  }
}
