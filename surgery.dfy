/**
  The tree edits that `toAtom` and `wrap` perform through the host's DOM
  calls, as functions from the arena before the edit to the arena after.

  Each edit names the handle of the node it creates (`added`), and comes
  with the new ghost ranking that keeps the arena ranked.  The lemmas
  prove that each edit keeps the arena a well-formed forest and that it
  changes the flattened text of no node except the ones it takes apart.
*/
module Surgery {
  import opened Tree
  import opened Indexer

  /** The exceptions the host raises along these paths. */
  datatype Error = IndexSizeError | TypeError | SyntaxError | InvalidCharacterError

  datatype Result<T> = Ok(value: T) | Err(error: Error)

  /** `indexOf`: the first position of `x` in `s`. */
  function IndexOf(s: seq<NodeId>, x: NodeId): (k: nat)
    requires x in s
    ensures k < |s| && s[k] == x && x !in s[..k]
  {
    if s[0] == x then 0
    else
      var k := IndexOf(s[1..], x);
      assert s[..k + 1] == [s[0]] + s[1..][..k];
      k + 1
  }

  /** The parent of `id`, when it has one, lists `id` among its children. */
  predicate Linked(nodes: Arena, id: NodeId) {
    && id in nodes
    && (nodes[id].parent.Some? ==>
          nodes[id].parent.value in nodes && id in nodes[nodes[id].parent.value].children)
  }

  lemma WellFormedLinked(nodes: Arena, height: Heights, id: NodeId)
    requires WellFormed(nodes, height) && id in nodes
    ensures Linked(nodes, id)
  {
  }

  // ---------------------------------------------------------------------
  // splitText
  // ---------------------------------------------------------------------

  /**
    `splitText(offset)` on the text node `id`: the characters from `offset`
    on move into a new text node `added`, which is inserted right after
    `id` in its parent; the new node of a detached text node is detached.
  */
  function Split(nodes: Arena, id: NodeId, offset: nat, added: NodeId): (r: Arena)
    requires IsLeaf(nodes, id) && Linked(nodes, id) && offset <= |nodes[id].text| && added !in nodes
    ensures r.Keys == nodes.Keys + {added}
  {
    var n := nodes[id];
    var cut := nodes[id := n.(text := n.text[..offset])][added := Node(Text, n.text[offset..], [], n.parent, {})];
    match n.parent
    case None => cut
    case Some(p) =>
      var kids := nodes[p].children;
      var k := IndexOf(kids, id);
      cut[p := nodes[p].(children := kids[..k + 1] + [added] + kids[k + 1..])]
  }

  /** The new text node ranks lowest. */
  ghost function SplitHeights(height: Heights, added: NodeId): Heights {
    height[added := 0]
  }

  /** The parent of the split node lists both halves and keeps its own links. */
  lemma SplitParentLinks(nodes: Arena, height: Heights, id: NodeId, offset: nat, added: NodeId)
    requires WellFormed(nodes, height) && IsLeaf(nodes, id) && offset <= |nodes[id].text| && added !in nodes
    requires nodes[id].parent.Some?
    ensures Linked(nodes, id)
    ensures var r := Split(nodes, id, offset, added);
            var p := nodes[id].parent.value;
            p in r && LinksHold(r, SplitHeights(height, added), p)
  {
    var r := Split(nodes, id, offset, added);
    var h2 := SplitHeights(height, added);
    var p := nodes[id].parent.value;
    var kids := nodes[p].children;
    var k := IndexOf(kids, id);
    DistinctInsert(kids, k + 1, added);
    assert r[p].children == kids[..k + 1] + [added] + kids[k + 1..];
    assert id in kids[..k + 1];
    forall c | c in r[p].children
      ensures c in r && c in h2 && h2[c] < h2[p] && r[c].parent == Some(p)
    {
      if c != added {
        assert c in kids;
      }
    }
    if nodes[p].parent.Some? {
      var q := nodes[p].parent.value;
      assert q != id && q != added && q != p;
    }
  }

  lemma SplitWellFormed(nodes: Arena, height: Heights, id: NodeId, offset: nat, added: NodeId)
    requires WellFormed(nodes, height) && IsLeaf(nodes, id) && offset <= |nodes[id].text| && added !in nodes
    ensures Linked(nodes, id)
    ensures WellFormed(Split(nodes, id, offset, added), SplitHeights(height, added))
  {
    var r := Split(nodes, id, offset, added);
    var h2 := SplitHeights(height, added);
    var parent := nodes[id].parent;
    var changed := {id, added} + (if parent.Some? then {parent.value} else {});
    assert nodes[id].children == [];
    if parent.Some? {
      var p := parent.value;
      var kids := nodes[p].children;
      var k := IndexOf(kids, id);
      assert r[p].children == kids[..k + 1] + [added] + kids[k + 1..];
      assert id in kids[..k + 1];
      SplitParentLinks(nodes, height, id, offset, added);
    }
    assert LinksHold(r, h2, id);
    assert LinksHold(r, h2, added);
    Reshape(nodes, height, r, h2, changed);
  }

  /** Two text nodes in a row read as the one text node they were cut from. */
  lemma TextPair(n: Arena, h: Heights, n2: Arena, h2: Heights, a: NodeId, b: NodeId)
    requires Ranked(n, h) && Ranked(n2, h2) && a in n && a in n2 && b in n2
    requires n[a].kind == Text && n2[a].kind == Text && n2[b].kind == Text
    requires n2[a].text + n2[b].text == n[a].text
    ensures KidsContent(n2, h2, [a, b]) == KidsContent(n, h, [a])
  {
    assert [a, b][1..] == [b] && [b][1..] == [] && [a][1..] == [];
    calc {
      KidsContent(n2, h2, [a, b]);
      Content(n2, h2, a) + KidsContent(n2, h2, [b]);
      n2[a].text + (Content(n2, h2, b) + KidsContent(n2, h2, []));
      n2[a].text + n2[b].text;
      Content(n, h, a) + KidsContent(n, h, []);
      KidsContent(n, h, [a]);
    }
  }

  /** Outside `id` and its parent, splitting keeps every node's shape. */
  lemma SplitFrame(nodes: Arena, height: Heights, id: NodeId, offset: nat, added: NodeId)
    requires WellFormed(nodes, height) && IsLeaf(nodes, id) && offset <= |nodes[id].text| && added !in nodes
    ensures Linked(nodes, id)
    ensures var r := Split(nodes, id, offset, added);
            forall y | y in nodes && y !in {id} && Some(y) != nodes[id].parent :: y in r && SameShape(nodes[y], r[y])
    ensures forall y | y in nodes && y !in {id} && Some(y) != nodes[id].parent ::
              forall c | c in nodes[y].children :: c !in {id}
  {
  }

  /** The parent's new child list: the split node followed by the new node. */
  lemma SplitKids(nodes: Arena, id: NodeId, offset: nat, added: NodeId)
    requires IsLeaf(nodes, id) && Linked(nodes, id) && offset <= |nodes[id].text| && added !in nodes
    requires nodes[id].parent.Some? && Distinct(nodes[nodes[id].parent.value].children)
    ensures var p := nodes[id].parent.value;
            var kids := nodes[p].children;
            var k := IndexOf(kids, id);
            && kids == kids[..k] + [id] + kids[k + 1..]
            && Split(nodes, id, offset, added)[p].children == kids[..k] + [id, added] + kids[k + 1..]
            && id !in kids[..k] + kids[k + 1..]
  {
    var p := nodes[id].parent.value;
    var kids := nodes[p].children;
    var k := IndexOf(kids, id);
    assert kids == kids[..k] + [id] + kids[k + 1..];
  }

  /** The parent of the split node keeps its flattened text. */
  lemma SplitParent(nodes: Arena, height: Heights, id: NodeId, offset: nat, added: NodeId)
    requires Ranked(nodes, height) && IsLeaf(nodes, id) && offset <= |nodes[id].text| && added !in nodes
    requires nodes[id].parent.Some? && nodes[id].parent.value in nodes
    requires id in nodes[nodes[id].parent.value].children
    requires Distinct(nodes[nodes[id].parent.value].children)
    requires Ranked(Split(nodes, id, offset, added), SplitHeights(height, added))
    requires var r := Split(nodes, id, offset, added);
             forall y | y in nodes && y !in {id} && Some(y) != nodes[id].parent :: y in r && SameShape(nodes[y], r[y])
    requires forall y | y in nodes && y !in {id} && Some(y) != nodes[id].parent ::
               forall c | c in nodes[y].children :: c !in {id}
    ensures var r := Split(nodes, id, offset, added);
            var p := nodes[id].parent.value;
            p in r && Content(r, SplitHeights(height, added), p) == Content(nodes, height, p)
  {
    var r := Split(nodes, id, offset, added);
    var h2 := SplitHeights(height, added);
    var p := nodes[id].parent.value;
    var kids := nodes[p].children;
    var k := IndexOf(kids, id);
    SplitKids(nodes, id, offset, added);
    assert nodes[id].text[..offset] + nodes[id].text[offset..] == nodes[id].text;
    TextPair(nodes, height, r, h2, id, added);
    Splice(nodes, height, r, h2, p, {id}, kids[..k], [id], kids[k + 1..], [id, added]);
  }

  /**
    Splitting a text node changes the flattened text of no other node of
    the arena, and the two halves together hold the old characters.
  */
  lemma SplitContent(nodes: Arena, height: Heights, id: NodeId, offset: nat, added: NodeId)
    requires WellFormed(nodes, height) && IsLeaf(nodes, id) && offset <= |nodes[id].text| && added !in nodes
    ensures Linked(nodes, id)
    ensures var r := Split(nodes, id, offset, added);
            && r[id].text + r[added].text == nodes[id].text
            && WellFormed(r, SplitHeights(height, added))
            && forall x | x in nodes && x != id ::
                 Content(r, SplitHeights(height, added), x) == Content(nodes, height, x)
  {
    var r := Split(nodes, id, offset, added);
    var h2 := SplitHeights(height, added);
    SplitWellFormed(nodes, height, id, offset, added);
    SplitFrame(nodes, height, id, offset, added);
    var text := nodes[id].text;
    assert text[..offset] + text[offset..] == text;
    if nodes[id].parent.Some? {
      SplitParent(nodes, height, id, offset, added);
    }
    forall x | x in nodes && x != id ensures Content(r, h2, x) == Content(nodes, height, x) {
      PreserveContent(nodes, height, r, h2, nodes[id].parent, {id}, x);
    }
  }

  /**
    Splitting changes the characters of `id` alone and nobody's parent,
    kind or classes; the new node is a text node with the rest.
  */
  lemma SplitRetains(nodes: Arena, id: NodeId, offset: nat, added: NodeId)
    requires IsLeaf(nodes, id) && Linked(nodes, id) && offset <= |nodes[id].text| && added !in nodes
    requires Tokens(nodes) && nodes[id].parent != Some(id)
    ensures var r := Split(nodes, id, offset, added);
            && Retains(nodes, r) && Tokens(r)
            && (forall x | x in nodes :: r[x].parent == nodes[x].parent)
            && (forall x | x in nodes && x != id :: r[x].text == nodes[x].text)
            && r[id].text == nodes[id].text[..offset]
            && r[added].kind == Text && r[added].text == nodes[id].text[offset..]
  {
  }

  /**
    `node.previousSibling`: null for a detached node or a first child;
    otherwise the child listed just before the first place `id` is listed.
  */
  function PreviousSibling(nodes: Arena, id: NodeId): (r: Option<NodeId>)
    requires Linked(nodes, id)
    ensures r.None? <==> nodes[id].parent.None? || nodes[nodes[id].parent.value].children[0] == id
    ensures r.Some? ==>
              && nodes[id].parent.Some?
              && var cs := nodes[nodes[id].parent.value].children;
                 exists k :: 0 < k < |cs| && cs[k] == id && id !in cs[..k] && cs[k - 1] == r.value
  {
    match nodes[id].parent
    case None => None
    case Some(p) =>
      var k := IndexOf(nodes[p].children, id);
      if k == 0 then None else Some(nodes[p].children[k - 1])
  }

  /**
    The second half of a split text node is attached exactly when the
    first is, and then directly follows it.
  */
  lemma SplitSibling(nodes: Arena, height: Heights, id: NodeId, offset: nat, added: NodeId)
    requires WellFormed(nodes, height) && IsLeaf(nodes, id) && offset <= |nodes[id].text| && added !in nodes
    ensures Linked(nodes, id)
    ensures var r := Split(nodes, id, offset, added);
            && IsLeaf(r, added) && Linked(r, added) && r[added].parent == nodes[id].parent
            && (nodes[id].parent.Some? ==> PreviousSibling(r, added) == Some(id))
  {
    var r := Split(nodes, id, offset, added);
    if nodes[id].parent.Some? {
      var p := nodes[id].parent.value;
      var kids := nodes[p].children;
      var k := IndexOf(kids, id);
      var nk := kids[..k + 1] + [added] + kids[k + 1..];
      assert r[p].children == nk;
      assert nk[k + 1] == added && nk[..k + 1] == kids[..k + 1];
      assert added !in kids;
      assert added !in kids[..k + 1] by {
        forall y | y in kids[..k + 1] ensures y in kids {}
      }
      IndexOfFirst(nk, added, k + 1);
      assert nk[k] == id;
    }
  }

  /** `IndexOf` finds the first occurrence, wherever it is. */
  lemma IndexOfFirst(s: seq<NodeId>, x: NodeId, k: nat)
    requires k < |s| && s[k] == x && x !in s[..k]
    ensures IndexOf(s, x) == k
  {
  }

  // ---------------------------------------------------------------------
  // wrap, first case: the only child of a wrapper takes its place
  // ---------------------------------------------------------------------

  /**
    The wrapper `w` of `node` (its parent, holding `node` alone) is
    replaced in its own parent `g` by `node`; the wrapper is left in the
    arena, detached and empty.
  */
  function Unwrap(nodes: Arena, node: NodeId): (r: Arena)
    requires Linked(nodes, node) && nodes[node].parent.Some?
    requires Linked(nodes, nodes[node].parent.value) && nodes[nodes[node].parent.value].parent.Some?
    ensures r.Keys == nodes.Keys
  {
    var w := nodes[node].parent.value;
    var g := nodes[w].parent.value;
    var gk := nodes[g].children;
    var i := IndexOf(gk, w);
    nodes[g := nodes[g].(children := gk[i := node])]
         [node := nodes[node].(parent := Some(g))]
         [w := nodes[w].(children := [], parent := None)]
  }

  /** What the unwrapping lemmas assume: `node` is the only child of a wrapper that has a parent. */
  ghost predicate Sole(nodes: Arena, height: Heights, node: NodeId) {
    && WellFormed(nodes, height) && IsLeaf(nodes, node) && nodes[node].parent.Some?
    && nodes[nodes[node].parent.value].children == [node]
    && nodes[nodes[node].parent.value].parent.Some?
  }

  lemma UnwrapLinks(nodes: Arena, height: Heights, node: NodeId)
    requires Sole(nodes, height, node)
    ensures Linked(nodes, node) && Linked(nodes, nodes[node].parent.value)
    ensures var r := Unwrap(nodes, node);
            var w := nodes[node].parent.value;
            var g := nodes[w].parent.value;
            && LinksHold(r, height, node) && LinksHold(r, height, w) && LinksHold(r, height, g)
            && r[g].parent == nodes[g].parent
  {
    var r := Unwrap(nodes, node);
    var w := nodes[node].parent.value;
    var g := nodes[w].parent.value;
    var gk := nodes[g].children;
    var i := IndexOf(gk, w);
    assert node !in gk;
    DistinctUpdate(gk, i, node);
    assert height[node] < height[w] < height[g];
    assert r[g].children == gk[i := node];
    forall c | c in r[g].children
      ensures c in r && c in height && height[c] < height[g] && r[c].parent == Some(g)
    {
      if c != node {
        assert c in gk[..i] + gk[i + 1..];
        assert c in gk && c != w;
      }
    }
    if nodes[g].parent.Some? {
      var q := nodes[g].parent.value;
      assert q != node && q != w && q != g;
    }
  }

  lemma UnwrapWellFormed(nodes: Arena, height: Heights, node: NodeId)
    requires Sole(nodes, height, node)
    ensures Linked(nodes, node) && Linked(nodes, nodes[node].parent.value)
    ensures WellFormed(Unwrap(nodes, node), height)
  {
    var r := Unwrap(nodes, node);
    var w := nodes[node].parent.value;
    var g := nodes[w].parent.value;
    UnwrapLinks(nodes, height, node);
    var changed := {node, w, g};
    forall y | y in r && y !in changed && nodes[y].parent.Some? && nodes[y].parent.value in changed
      ensures y in r[nodes[y].parent.value].children
    {
      var gk := nodes[g].children;
      var i := IndexOf(gk, w);
      assert nodes[y].parent.value == g;
      assert y in gk[..i] + gk[i + 1..];
      assert r[g].children == gk[..i] + [node] + gk[i + 1..];
    }
    Reshape(nodes, height, r, height, changed);
  }

  /**
    Unwrapping keeps the flattened text of every node but the wrapper,
    which is left empty: in particular the wrapper's parent reads as it did.
  */
  lemma UnwrapContent(nodes: Arena, height: Heights, node: NodeId)
    requires Sole(nodes, height, node)
    ensures Linked(nodes, node) && Linked(nodes, nodes[node].parent.value)
    ensures var r := Unwrap(nodes, node);
            var w := nodes[node].parent.value;
            && WellFormed(r, height)
            && Content(r, height, w) == ""
            && forall x | x in nodes && x != w :: Content(r, height, x) == Content(nodes, height, x)
  {
    var r := Unwrap(nodes, node);
    var w := nodes[node].parent.value;
    var g := nodes[w].parent.value;
    UnwrapWellFormed(nodes, height, node);
    UnwrapFrame(nodes, height, node);
    UnwrapParent(nodes, height, node);
    forall x | x in nodes && x != w ensures Content(r, height, x) == Content(nodes, height, x) {
      PreserveContent(nodes, height, r, height, Some(g), {w}, x);
    }
  }

  /** A wrapper around one text node reads as that text node. */
  lemma OnlyChild(n: Arena, h: Heights, n2: Arena, h2: Heights, w: NodeId, node: NodeId)
    requires Ranked(n, h) && Ranked(n2, h2) && w in n && node in n && node in n2
    requires n[w].kind == Element && n[w].children == [node]
    requires n[node].kind == Text && n2[node].kind == Text && n2[node].text == n[node].text
    ensures KidsContent(n2, h2, [node]) == KidsContent(n, h, [w])
    ensures Content(n2, h2, node) == Content(n, h, w)
  {
    assert [node][1..] == [] && [w][1..] == [];
    assert Content(n2, h2, node) == n2[node].text == n[node].text == Content(n, h, node);
    calc {
      KidsContent(n, h, [w]);
      Content(n, h, w) + KidsContent(n, h, []);
      Content(n, h, w);
      KidsContent(n, h, n[w].children);
      KidsContent(n, h, [node]);
      Content(n, h, node) + KidsContent(n, h, []);
      Content(n2, h2, node) + KidsContent(n2, h2, []);
      KidsContent(n2, h2, [node]);
    }
  }

  /** Outside the wrapper and its parent, unwrapping keeps every node's shape. */
  lemma UnwrapFrame(nodes: Arena, height: Heights, node: NodeId)
    requires Sole(nodes, height, node)
    ensures Linked(nodes, node) && Linked(nodes, nodes[node].parent.value)
    ensures var r := Unwrap(nodes, node);
            var w := nodes[node].parent.value;
            var g := nodes[w].parent.value;
            && (forall y | y in nodes && y !in {w} && Some(y) != Some(g) :: y in r && SameShape(nodes[y], r[y]))
            && (forall y | y in nodes && y !in {w} && Some(y) != Some(g) :: forall c | c in nodes[y].children :: c !in {w})
  {
  }

  lemma UnwrapParent(nodes: Arena, height: Heights, node: NodeId)
    requires Ranked(nodes, height) && IsLeaf(nodes, node) && Linked(nodes, node) && nodes[node].parent.Some?
    requires var w := nodes[node].parent.value;
             && Linked(nodes, w) && nodes[w].parent.Some? && nodes[w].children == [node] && nodes[w].kind == Element
             && nodes[w].parent.value in nodes && Distinct(nodes[nodes[w].parent.value].children)
    requires Ranked(Unwrap(nodes, node), height)
    requires var r := Unwrap(nodes, node);
             var w := nodes[node].parent.value;
             var g := nodes[w].parent.value;
             && w != g
             && (forall y | y in nodes && y !in {w} && y != g :: y in r && SameShape(nodes[y], r[y]))
             && (forall y | y in nodes && y !in {w} && y != g :: forall c | c in nodes[y].children :: c !in {w})
    ensures var r := Unwrap(nodes, node);
            var w := nodes[node].parent.value;
            var g := nodes[w].parent.value;
            Content(r, height, g) == Content(nodes, height, g)
  {
    var r := Unwrap(nodes, node);
    var w := nodes[node].parent.value;
    var g := nodes[w].parent.value;
    var gk := nodes[g].children;
    var i := IndexOf(gk, w);
    assert gk == gk[..i] + [w] + gk[i + 1..];
    assert r[g].children == gk[..i] + [node] + gk[i + 1..];
    OnlyChild(nodes, height, r, height, w, node);
    Splice(nodes, height, r, height, g, {w}, gk[..i], [w], gk[i + 1..], [node]);
  }

  // ---------------------------------------------------------------------
  // wrap, third case: a new wrapper takes the node's place
  // ---------------------------------------------------------------------

  /**
    A new element `added` carrying the class `c` replaces `node` in its
    parent's child list, and `node` becomes its only child.
  */
  function WrapNew(nodes: Arena, node: NodeId, added: NodeId, c: string): (r: Arena)
    requires Linked(nodes, node) && nodes[node].parent.Some? && added !in nodes
    ensures r.Keys == nodes.Keys + {added}
  {
    var p := nodes[node].parent.value;
    var pk := nodes[p].children;
    var k := IndexOf(pk, node);
    nodes[p := nodes[p].(children := pk[k := added])]
         [node := nodes[node].(parent := Some(added))]
         [added := Node(Element, "", [node], Some(p), {c})]
  }

  /**
    The new wrapper sits where the node sat, among the same siblings, and
    holds the node as its only child.
  */
  lemma WrapNewPlaces(nodes: Arena, height: Heights, node: NodeId, added: NodeId, c: string)
    requires WellFormed(nodes, height) && IsLeaf(nodes, node) && nodes[node].parent.Some? && added !in nodes
    ensures Linked(nodes, node)
    ensures var r := WrapNew(nodes, node, added, c);
            var p := nodes[node].parent.value;
            var pk := nodes[p].children;
            && node != p && added != p
            && exists k | 0 <= k < |pk| ::
                 && pk[k] == node
                 && r[p].children == pk[..k] + [added] + pk[k + 1..]
                 && r[added] == Node(Element, "", [node], Some(p), {c})
                 && r[node] == nodes[node].(parent := Some(added))
                 && forall y | y in nodes && y != p && y != node :: r[y] == nodes[y]
  {
    WellFormedLinked(nodes, height, node);
    var p := nodes[node].parent.value;
    var pk := nodes[p].children;
    var k := IndexOf(pk, node);
    assert height[node] < height[p];
    assert pk[k := added] == pk[..k] + [added] + pk[k + 1..];
  }

  /** Every rank doubles, so that the new wrapper fits between `node` and its parent. */
  ghost function WrapHeights(height: Heights, node: NodeId, added: NodeId): Heights
    requires node in height
  {
    (map y | y in height :: 2 * height[y])[added := 2 * height[node] + 1]
  }

  /** What the wrapping lemmas assume: `node` is an attached text node and `added` is unused. */
  ghost predicate Bare(nodes: Arena, height: Heights, node: NodeId, added: NodeId) {
    WellFormed(nodes, height) && IsLeaf(nodes, node) && nodes[node].parent.Some? && added !in nodes
  }

  lemma WrapNewLinks(nodes: Arena, height: Heights, node: NodeId, added: NodeId, c: string)
    requires Bare(nodes, height, node, added)
    ensures Linked(nodes, node)
    ensures var r := WrapNew(nodes, node, added, c);
            var h2 := WrapHeights(height, node, added);
            var p := nodes[node].parent.value;
            && LinksHold(r, h2, node) && LinksHold(r, h2, added) && LinksHold(r, h2, p)
            && r[p].parent == nodes[p].parent
  {
    var r := WrapNew(nodes, node, added, c);
    var h2 := WrapHeights(height, node, added);
    var p := nodes[node].parent.value;
    var pk := nodes[p].children;
    var k := IndexOf(pk, node);
    assert added !in pk;
    DistinctUpdate(pk, k, added);
    assert height[node] < height[p];
    forall c | c in r[p].children
      ensures c in r && c in h2 && h2[c] < h2[p] && r[c].parent == Some(p)
    {
      if c != added {
        assert c in pk[..k] + pk[k + 1..];
        assert c in pk && c != node;
      }
    }
    if nodes[p].parent.Some? {
      var q := nodes[p].parent.value;
      assert q != node && q != p;
    }
  }

  lemma WrapNewWellFormed(nodes: Arena, height: Heights, node: NodeId, added: NodeId, c: string)
    requires Bare(nodes, height, node, added)
    ensures Linked(nodes, node)
    ensures WellFormed(WrapNew(nodes, node, added, c), WrapHeights(height, node, added))
  {
    var r := WrapNew(nodes, node, added, c);
    var h2 := WrapHeights(height, node, added);
    var p := nodes[node].parent.value;
    WrapNewLinks(nodes, height, node, added, c);
    var changed := {node, added, p};
    forall y | y in r && y !in changed && nodes[y].parent.Some? && nodes[y].parent.value in changed
      ensures y in r[nodes[y].parent.value].children
    {
      var pk := nodes[p].children;
      var k := IndexOf(pk, node);
      assert nodes[y].parent.value == p;
      assert y in pk[..k] + pk[k + 1..];
      assert r[p].children == pk[..k] + [added] + pk[k + 1..];
    }
    Reshape(nodes, height, r, h2, changed);
  }

  /** Outside the parent, wrapping keeps every old node's shape. */
  lemma WrapNewFrame(nodes: Arena, height: Heights, node: NodeId, added: NodeId, c: string)
    requires Bare(nodes, height, node, added)
    ensures Linked(nodes, node)
    ensures var r := WrapNew(nodes, node, added, c);
            var p := nodes[node].parent.value;
            && (forall y | y in nodes && y !in {} && Some(y) != Some(p) :: y in r && SameShape(nodes[y], r[y]))
  {
  }

  lemma WrapNewParent(nodes: Arena, height: Heights, node: NodeId, added: NodeId, c: string)
    requires Ranked(nodes, height) && IsLeaf(nodes, node) && Linked(nodes, node) && nodes[node].parent.Some?
    requires added !in nodes && Distinct(nodes[nodes[node].parent.value].children)
    requires Ranked(WrapNew(nodes, node, added, c), WrapHeights(height, node, added))
    requires var r := WrapNew(nodes, node, added, c);
             var p := nodes[node].parent.value;
             forall y | y in nodes && y !in {} && y != p :: y in r && SameShape(nodes[y], r[y])
    ensures var r := WrapNew(nodes, node, added, c);
            var p := nodes[node].parent.value;
            && Content(r, WrapHeights(height, node, added), added) == Content(nodes, height, node)
            && Content(r, WrapHeights(height, node, added), p) == Content(nodes, height, p)
  {
    var r := WrapNew(nodes, node, added, c);
    var h2 := WrapHeights(height, node, added);
    var p := nodes[node].parent.value;
    var pk := nodes[p].children;
    var k := IndexOf(pk, node);
    assert pk == pk[..k] + [node] + pk[k + 1..];
    assert r[p].children == pk[..k] + [added] + pk[k + 1..];
    OnlyChild(r, h2, nodes, height, added, node);
    Splice(nodes, height, r, h2, p, {}, pk[..k], [node], pk[k + 1..], [added]);
  }

  /**
    Wrapping changes the flattened text of no node, and the new wrapper
    reads as the node it wraps.
  */
  lemma WrapNewContent(nodes: Arena, height: Heights, node: NodeId, added: NodeId, c: string)
    requires Bare(nodes, height, node, added)
    ensures Linked(nodes, node)
    ensures var r := WrapNew(nodes, node, added, c);
            var h2 := WrapHeights(height, node, added);
            && WellFormed(r, h2)
            && Content(r, h2, added) == Content(nodes, height, node)
            && forall x | x in nodes :: Content(r, h2, x) == Content(nodes, height, x)
  {
    var r := WrapNew(nodes, node, added, c);
    var h2 := WrapHeights(height, node, added);
    var p := nodes[node].parent.value;
    WrapNewWellFormed(nodes, height, node, added, c);
    WrapNewFrame(nodes, height, node, added, c);
    WrapNewParent(nodes, height, node, added, c);
    forall x | x in nodes ensures Content(r, h2, x) == Content(nodes, height, x) {
      PreserveContent(nodes, height, r, h2, Some(p), {}, x);
    }
  }

  /**
    Unwrapping a freshly wrapped node gives back the arena it was wrapped
    in, apart from the new wrapper, which stays behind detached and empty.
  */
  lemma {:induction false} WrapThenUnwrap(nodes: Arena, height: Heights, node: NodeId, added: NodeId, c: string)
    requires Bare(nodes, height, node, added)
    ensures Linked(nodes, node)
    ensures var r := WrapNew(nodes, node, added, c);
            && Linked(r, node) && r[node].parent == Some(added)
            && Linked(r, added) && r[added].parent.Some?
            && Unwrap(r, node) == nodes[added := Node(Element, "", [], None, {c})]
  {
    var r := WrapNew(nodes, node, added, c);
    var p := nodes[node].parent.value;
    var pk := nodes[p].children;
    var k := IndexOf(pk, node);
    assert added !in pk;
    assert r[p].children == pk[k := added];
    assert pk[k := added][..k] == pk[..k];
    IndexOfFirst(pk[k := added], added, k);
    assert pk[k := added][k := node] == pk;
    var u := Unwrap(r, node);
    var want := nodes[added := Node(Element, "", [], None, {c})];
    assert u.Keys == want.Keys;
    forall y | y in u ensures u[y] == want[y] {
      if y != p && y != node && y != added {
        assert u[y] == nodes[y];
      }
    }
  }

  // ---------------------------------------------------------------------
  // wrap, second case: the node leaves a wrapper it shares
  // ---------------------------------------------------------------------

  /** The siblings in front of `node` in its parent. */
  function Before(nodes: Arena, node: NodeId): seq<NodeId>
    requires Linked(nodes, node) && nodes[node].parent.Some?
  {
    var wk := nodes[nodes[node].parent.value].children;
    wk[..IndexOf(wk, node)]
  }

  /** The siblings behind `node` in its parent. */
  function After(nodes: Arena, node: NodeId): seq<NodeId>
    requires Linked(nodes, node) && nodes[node].parent.Some?
  {
    var wk := nodes[nodes[node].parent.value].children;
    wk[IndexOf(wk, node) + 1..]
  }

  /** `kids` are given the parent link `parent`; nothing else changes. */
  function Adopt(nodes: Arena, kids: seq<NodeId>, parent: Option<NodeId>): (r: Arena)
    ensures r.Keys == nodes.Keys
    ensures forall y | y in nodes && y !in kids :: r[y] == nodes[y]
    ensures forall y | y in nodes && y in kids :: r[y] == nodes[y].(parent := parent)
  {
    map y | y in nodes :: if y in kids then nodes[y].(parent := parent) else nodes[y]
  }

  /** Where a node sits: its wrapper `w`, the wrapper's parent `g`, the siblings around it, and the wrapper's position in `g`. */
  datatype Spot = Spot(w: NodeId, g: NodeId, before: seq<NodeId>, after: seq<NodeId>, i: nat)

  function SpotOf(nodes: Arena, node: NodeId): (s: Spot)
    requires Linked(nodes, node) && nodes[node].parent.Some?
    requires Linked(nodes, nodes[node].parent.value) && nodes[nodes[node].parent.value].parent.Some?
    ensures s.g in nodes && s.i < |nodes[s.g].children|
  {
    var w := nodes[node].parent.value;
    var g := nodes[w].parent.value;
    Spot(w, g, Before(nodes, node), After(nodes, node), IndexOf(nodes[g].children, w))
  }

  /** What moves into the wrapper's parent right behind the wrapper. */
  function Lifted(node: NodeId, added: NodeId, after: seq<NodeId>): seq<NodeId> {
    if after == [] then [node] else [node, added]
  }

  /**
    `node` leaves its wrapper `w`, which keeps the siblings in front of
    it, and is put right behind `w` in `w`'s parent `g`; the siblings
    behind it, when there are any, move in order into a new element
    `added` with the class `c`, put right behind `node`.
  */
  function SplitOut(nodes: Arena, node: NodeId, added: NodeId, c: string): (r: Arena)
    requires Linked(nodes, node) && nodes[node].parent.Some?
    requires Linked(nodes, nodes[node].parent.value) && nodes[nodes[node].parent.value].parent.Some?
    ensures r.Keys == nodes.Keys + (if After(nodes, node) == [] then {} else {added})
  {
    var s := SpotOf(nodes, node);
    var gk := nodes[s.g].children;
    var base := Adopt(nodes, s.after, Some(added))
                  [s.w := nodes[s.w].(children := s.before)]
                  [node := nodes[node].(parent := Some(s.g))];
    var grown := if s.after == [] then base else base[added := Node(Element, "", s.after, Some(s.g), {c})];
    grown[s.g := nodes[s.g].(children := gk[..s.i + 1] + Lifted(node, added, s.after) + gk[s.i + 1..])]
  }

  /** The new element takes the wrapper's rank. */
  ghost function SplitOutHeights(height: Heights, nodes: Arena, node: NodeId, added: NodeId): Heights
    requires Linked(nodes, node) && nodes[node].parent.Some? && nodes[node].parent.value in height
  {
    height[added := height[nodes[node].parent.value]]
  }

  /** What the splitting-out lemmas assume: `node` sits in a wrapper that has a parent. */
  ghost predicate Shared(nodes: Arena, height: Heights, node: NodeId, added: NodeId) {
    && WellFormed(nodes, height) && IsLeaf(nodes, node) && nodes[node].parent.Some?
    && nodes[nodes[node].parent.value].parent.Some? && added !in nodes
  }

  /**
    `r` is `nodes` with `node` split out of its wrapper as `SplitOut`
    does it, spelled out node by node for the spot `s`.
  */
  ghost predicate Moved(nodes: Arena, r: Arena, node: NodeId, added: NodeId, c: string, s: Spot) {
    && s.w in nodes && s.g in nodes && node in nodes && added !in nodes
    && nodes[node].parent == Some(s.w) && nodes[s.w].parent == Some(s.g)
    && nodes[s.w].children == s.before + [node] + s.after
    && s.i < |nodes[s.g].children| && nodes[s.g].children[s.i] == s.w
    && r.Keys == nodes.Keys + (if s.after == [] then {} else {added})
    && r[s.w] == nodes[s.w].(children := s.before)
    && r[node] == nodes[node].(parent := Some(s.g))
    && r[s.g] == nodes[s.g].(children := nodes[s.g].children[..s.i + 1] + Lifted(node, added, s.after) + nodes[s.g].children[s.i + 1..])
    && (s.after != [] ==> r[added] == Node(Element, "", s.after, Some(s.g), {c}))
    && (forall y | y in s.after :: y in nodes && r[y] == nodes[y].(parent := Some(added)))
    && (forall y | y in nodes && y != s.w && y != node && y != s.g && y !in s.after :: r[y] == nodes[y])
  }

  /** The spot of a node in a wrapper that has a parent. */
  lemma SpotFacts(nodes: Arena, height: Heights, node: NodeId, added: NodeId)
    requires Shared(nodes, height, node, added)
    ensures Linked(nodes, node) && Linked(nodes, nodes[node].parent.value)
    ensures var s := SpotOf(nodes, node);
            && s.w in nodes && nodes[node].parent == Some(s.w) && nodes[s.w].parent == Some(s.g)
            && nodes[s.w].children == s.before + [node] + s.after
            && nodes[s.g].children[s.i] == s.w
            && s.w != s.g && s.w != node && s.g != node
            && (forall y | y in s.after :: y in nodes && y != s.w && y != s.g && y != node)
  {
    var w := nodes[node].parent.value;
    var g := nodes[w].parent.value;
    var wk := nodes[w].children;
    var k := IndexOf(wk, node);
    assert wk == wk[..k] + [node] + wk[k + 1..];
    assert height[node] < height[w] < height[g];
    forall y | y in wk[k + 1..] ensures y in nodes && y != w && y != g && y != node {
      var b :| 0 <= b < |wk[k + 1..]| && wk[k + 1..][b] == y;
      assert wk[k + 1 + b] == y;
    }
  }

  lemma SplitOutMoved(nodes: Arena, height: Heights, node: NodeId, added: NodeId, c: string)
    requires Shared(nodes, height, node, added)
    ensures Linked(nodes, node) && Linked(nodes, nodes[node].parent.value)
    ensures Moved(nodes, SplitOut(nodes, node, added, c), node, added, c, SpotOf(nodes, node))
  {
    SpotFacts(nodes, height, node, added);
  }

  /** The siblings around a child of `w` are distinct children of `w`. */
  lemma SiblingParts(nodes: Arena, height: Heights, w: NodeId, before: seq<NodeId>, node: NodeId, after: seq<NodeId>)
    requires WellFormed(nodes, height) && w in nodes && nodes[w].children == before + [node] + after
    ensures Distinct(before) && Distinct(after)
    ensures node !in before && node !in after && (forall y | y in before :: y !in after)
    ensures node in nodes && nodes[node].parent == Some(w) && height[node] < height[w]
    ensures forall y | y in before + after ::
              y in nodes && nodes[y].parent == Some(w) && height[y] < height[w] && y != w && y != node
  {
    var wk := nodes[w].children;
    var n := |before|;
    assert wk[n] == node;
    assert before == wk[..n] && after == wk[n + 1..];
    forall y | y in before ensures y !in after && y != node {
      var a :| 0 <= a < n && before[a] == y;
      assert wk[a] == y;
    }
    forall y | y in after ensures y != node {
      var b :| 0 <= b < |after| && after[b] == y;
      assert wk[n + 1 + b] == y;
    }
    forall y | y in before + after
      ensures y in nodes && nodes[y].parent == Some(w) && height[y] < height[w] && y != w
    {
      assert y in wk;
    }
  }

  /** The parts of the wrapper's child list. */
  lemma WrapperParts(nodes: Arena, height: Heights, r: Arena, node: NodeId, added: NodeId, c: string, s: Spot)
    requires WellFormed(nodes, height) && IsLeaf(nodes, node) && Moved(nodes, r, node, added, c, s)
    ensures Distinct(s.before) && Distinct(s.after)
    ensures node !in s.before && node !in s.after && (forall y | y in s.before :: y !in s.after)
    ensures s.w != s.g && s.w != node && s.g != node && added != s.w && added != s.g && added != node
    ensures height[node] < height[s.w] < height[s.g]
    ensures forall y | y in s.before + s.after ::
              y in nodes && nodes[y].parent == Some(s.w) && y != s.w && y != s.g && y != added && y != node
  {
    SiblingParts(nodes, height, s.w, s.before, node, s.after);
    assert height[s.w] < height[s.g];
  }

  /** Where the wrapper sits in its parent's child list. */
  lemma GrandParts(nodes: Arena, height: Heights, r: Arena, node: NodeId, added: NodeId, c: string, s: Spot)
    requires WellFormed(nodes, height) && IsLeaf(nodes, node) && Moved(nodes, r, node, added, c, s)
    ensures var gk := nodes[s.g].children;
            && gk == gk[..s.i] + [s.w] + gk[s.i + 1..]
            && s.w !in gk[..s.i] + gk[s.i + 1..]
            && node !in gk && added !in gk && s.w != s.g
            && (forall y | y in gk :: y !in s.before + s.after)
  {
    var gk := nodes[s.g].children;
    assert height[s.w] < height[s.g];
    assert gk == gk[..s.i] + [s.w] + gk[s.i + 1..];
    assert forall y | y in s.before + s.after :: y in nodes[s.w].children;
  }

  /** The children of the grandparent after splitting out repeat no handle. */
  lemma GrandDistinct(gk: seq<NodeId>, i: nat, node: NodeId, lifted: seq<NodeId>, added: NodeId)
    requires Distinct(gk) && i < |gk| && node !in gk && added !in gk && node != added
    requires lifted == [node] || lifted == [node, added]
    ensures Distinct(gk[..i + 1] + lifted + gk[i + 1..])
  {
    DistinctInsert(gk, i + 1, node);
    var t := gk[..i + 1] + [node] + gk[i + 1..];
    if lifted == [node, added] {
      assert t[..i + 2] == gk[..i + 1] + [node];
      assert t[i + 2..] == gk[i + 1..];
      DistinctInsert(t, i + 2, added);
      assert t[..i + 2] + [added] + t[i + 2..] == gk[..i + 1] + lifted + gk[i + 1..];
    }
  }

  /** The wrapper, the moved node and the new element satisfy the local conditions. */
  lemma MovedLinksLow(nodes: Arena, height: Heights, r: Arena, h2: Heights, node: NodeId, added: NodeId, c: string, s: Spot)
    requires WellFormed(nodes, height) && IsLeaf(nodes, node) && Moved(nodes, r, node, added, c, s)
    requires s.w in height && h2 == height[added := height[s.w]]
    ensures LinksHold(r, h2, s.w) && LinksHold(r, h2, node)
    ensures s.after != [] ==> LinksHold(r, h2, added)
  {
    WrapperParts(nodes, height, r, node, added, c, s);
    var gk := nodes[s.g].children;
    assert s.w in gk[..s.i + 1];
    assert s.before == nodes[s.w].children[..|s.before|];
    forall y | y in s.before ensures y in r && y in h2 && h2[y] < h2[s.w] && r[y].parent == Some(s.w) {
      assert y in s.before + s.after;
    }
    forall y | y in s.after ensures y in r && y in h2 && h2[y] < h2[added] && r[y].parent == Some(added) {
      assert y in s.before + s.after;
      assert y in nodes[s.w].children;
    }
  }

  /** The grandparent's new children are linked back to it and ranked below it. */
  lemma MovedGrandKids(nodes: Arena, height: Heights, r: Arena, h2: Heights, node: NodeId, added: NodeId, c: string, s: Spot)
    requires WellFormed(nodes, height) && IsLeaf(nodes, node) && Moved(nodes, r, node, added, c, s)
    requires s.w in height && h2 == height[added := height[s.w]]
    ensures forall y | y in r[s.g].children :: y in r && y in h2 && h2[y] < h2[s.g] && r[y].parent == Some(s.g)
  {
    GrandParts(nodes, height, r, node, added, c, s);
    var gk := nodes[s.g].children;
    var lifted := Lifted(node, added, s.after);
    assert r[s.g].children == gk[..s.i + 1] + lifted + gk[s.i + 1..];
    assert height[node] < height[s.w] < height[s.g];
    forall y | y in r[s.g].children
      ensures y in r && y in h2 && h2[y] < h2[s.g] && r[y].parent == Some(s.g)
    {
      if y in lifted {
        if y != node {
          assert s.after != [] && y == added;
        }
      } else {
        GrandKid(gk, s.i, lifted, y);
        assert nodes[y].parent == Some(s.g) && height[y] < height[s.g];
        if y != s.w {
          assert y !in s.after;
          assert r[y] == nodes[y];
        }
      }
    }
  }

  /** A child of the grandparent after splitting out that was not lifted was already its child. */
  lemma GrandKid(gk: seq<NodeId>, i: nat, lifted: seq<NodeId>, y: NodeId)
    requires i < |gk| && y in gk[..i + 1] + lifted + gk[i + 1..] && y !in lifted
    ensures y in gk
  {
    if y in gk[..i + 1] {
      var k :| 0 <= k < i + 1 && gk[..i + 1][k] == y;
      assert gk[k] == y;
    } else {
      assert y in gk[i + 1..];
      var k :| 0 <= k < |gk| - i - 1 && gk[i + 1..][k] == y;
      assert gk[i + 1 + k] == y;
    }
  }

  /** The grandparent satisfies the local conditions after splitting out. */
  lemma MovedLinksGrand(nodes: Arena, height: Heights, r: Arena, h2: Heights, node: NodeId, added: NodeId, c: string, s: Spot)
    requires WellFormed(nodes, height) && IsLeaf(nodes, node) && Moved(nodes, r, node, added, c, s)
    requires s.w in height && h2 == height[added := height[s.w]]
    ensures LinksHold(r, h2, s.g) && r[s.g].parent == nodes[s.g].parent
  {
    WrapperParts(nodes, height, r, node, added, c, s);
    GrandParts(nodes, height, r, node, added, c, s);
    GrandDistinct(nodes[s.g].children, s.i, node, Lifted(node, added, s.after), added);
    MovedGrandKids(nodes, height, r, h2, node, added, c, s);
    if nodes[s.g].parent.Some? {
      var q := nodes[s.g].parent.value;
      assert height[s.g] < height[q];
      assert q !in s.before + s.after;
    }
  }

  /** The siblings that move into the new element keep their own links. */
  lemma MovedLinksAfter(nodes: Arena, height: Heights, r: Arena, h2: Heights, node: NodeId, added: NodeId, c: string, s: Spot)
    requires WellFormed(nodes, height) && IsLeaf(nodes, node) && Moved(nodes, r, node, added, c, s)
    requires s.w in height && h2 == height[added := height[s.w]]
    ensures forall a | a in s.after :: a in r && LinksHold(r, h2, a)
  {
    WrapperParts(nodes, height, r, node, added, c, s);
    forall a | a in s.after ensures a in r && LinksHold(r, h2, a) {
      assert a in s.before + s.after;
      forall y | y in nodes[a].children
        ensures y in r && y in h2 && h2[y] < h2[a] && r[y].parent == Some(a)
      {
        assert nodes[y].parent == Some(a);
        assert height[y] < height[a];
      }
    }
  }

  /** The changed nodes keep the parent links that unchanged parents expect. */
  lemma MovedCrossDown(nodes: Arena, height: Heights, r: Arena, node: NodeId, added: NodeId, c: string, s: Spot,
                       changed: set<NodeId>)
    requires WellFormed(nodes, height) && IsLeaf(nodes, node) && Moved(nodes, r, node, added, c, s)
    requires changed == {s.w, node, s.g, added} + set y | y in s.after
    ensures forall y | y in r && y !in changed ::
              forall k | k in nodes[y].children && k in changed :: r[k].parent == Some(y)
  {
    WrapperParts(nodes, height, r, node, added, c, s);
    forall y, k | y in r && y !in changed && k in nodes[y].children && k in changed
      ensures r[k].parent == Some(y)
    {
      assert nodes[k].parent == Some(y);
    }
  }

  /** The unchanged children of changed parents are still listed by them. */
  lemma MovedCrossUp(nodes: Arena, height: Heights, r: Arena, node: NodeId, added: NodeId, c: string, s: Spot,
                     changed: set<NodeId>)
    requires WellFormed(nodes, height) && IsLeaf(nodes, node) && Moved(nodes, r, node, added, c, s)
    requires changed == {s.w, node, s.g, added} + set y | y in s.after
    ensures forall y | y in r && y !in changed && nodes[y].parent.Some? && nodes[y].parent.value in changed ::
              y in r[nodes[y].parent.value].children
  {
    WrapperParts(nodes, height, r, node, added, c, s);
    GrandParts(nodes, height, r, node, added, c, s);
    var gk := nodes[s.g].children;
    forall y | y in r && y !in changed && nodes[y].parent.Some? && nodes[y].parent.value in changed
      ensures y in r[nodes[y].parent.value].children
    {
      var z := nodes[y].parent.value;
      assert y in nodes[z].children;
      if z == s.w {
        assert y in s.before + [node] + s.after;
      } else if z == s.g {
        assert y in gk[..s.i] + gk[s.i + 1..];
        assert r[s.g].children == gk[..s.i] + [s.w] + Lifted(node, added, s.after) + gk[s.i + 1..];
      }
    }
  }

  /** Every node the split-out changes satisfies the local conditions. */
  lemma MovedLinks(nodes: Arena, height: Heights, r: Arena, h2: Heights, node: NodeId, added: NodeId, c: string, s: Spot,
                   changed: set<NodeId>)
    requires WellFormed(nodes, height) && IsLeaf(nodes, node) && Moved(nodes, r, node, added, c, s)
    requires s.w in height && h2 == height[added := height[s.w]]
    requires changed == {s.w, node, s.g, added} + set y | y in s.after
    ensures forall y | y in r && y in changed :: LinksHold(r, h2, y)
  {
    MovedLinksLow(nodes, height, r, h2, node, added, c, s);
    MovedLinksGrand(nodes, height, r, h2, node, added, c, s);
    MovedLinksAfter(nodes, height, r, h2, node, added, c, s);
  }

  lemma MovedWellFormed(nodes: Arena, height: Heights, r: Arena, h2: Heights, node: NodeId, added: NodeId, c: string, s: Spot)
    requires WellFormed(nodes, height) && IsLeaf(nodes, node) && Moved(nodes, r, node, added, c, s)
    requires s.w in height && h2 == height[added := height[s.w]]
    ensures WellFormed(r, h2)
  {
    var changed := {s.w, node, s.g, added} + set y | y in s.after;
    MovedLinks(nodes, height, r, h2, node, added, c, s, changed);
    MovedCrossDown(nodes, height, r, node, added, c, s, changed);
    MovedCrossUp(nodes, height, r, node, added, c, s, changed);
    Reshape(nodes, height, r, h2, changed);
  }

  /** Splitting out keeps the arena a well-formed forest. */
  lemma SplitOutWellFormed(nodes: Arena, height: Heights, node: NodeId, added: NodeId, c: string)
    requires Shared(nodes, height, node, added)
    ensures Linked(nodes, node) && Linked(nodes, nodes[node].parent.value)
    ensures WellFormed(SplitOut(nodes, node, added, c), SplitOutHeights(height, nodes, node, added))
  {
    SplitOutMoved(nodes, height, node, added, c);
    MovedWellFormed(nodes, height, SplitOut(nodes, node, added, c), SplitOutHeights(height, nodes, node, added),
                    node, added, c, SpotOf(nodes, node));
  }

  /** Outside the wrapper and its parent, splitting out keeps every old node's shape. */
  lemma MovedFrame(nodes: Arena, height: Heights, r: Arena, node: NodeId, added: NodeId, c: string, s: Spot)
    requires WellFormed(nodes, height) && IsLeaf(nodes, node) && Moved(nodes, r, node, added, c, s)
    ensures forall y | y in nodes && y !in {s.w} && Some(y) != Some(s.g) :: y in r && SameShape(nodes[y], r[y])
    ensures forall y | y in nodes && y !in {s.w} && Some(y) != Some(s.g) :: forall k | k in nodes[y].children :: k !in {s.w}
  {
    WrapperParts(nodes, height, r, node, added, c, s);
  }

  /** A wrapper reads as the siblings in front of a text node, the node, and the siblings behind it. */
  lemma WrapperText(nodes: Arena, height: Heights, w: NodeId, before: seq<NodeId>, node: NodeId, after: seq<NodeId>)
    requires Ranked(nodes, height) && w in nodes && nodes[w].kind == Element
    requires nodes[w].children == before + [node] + after && IsLeaf(nodes, node)
    ensures forall k | k in before + after :: k in nodes
    ensures Content(nodes, height, w) ==
            KidsContent(nodes, height, before) + nodes[node].text + KidsContent(nodes, height, after)
  {
    assert forall k | k in before + after :: k in nodes[w].children;
    KidsContentAppend(nodes, height, before, [node]);
    KidsContentAppend(nodes, height, before + [node], after);
    KidsContentShort(nodes, height, node, node, node);
  }

  /** The siblings around the node keep their text in their new places. */
  lemma MovedKeep(nodes: Arena, height: Heights, r: Arena, h2: Heights, node: NodeId, added: NodeId, c: string, s: Spot)
    requires WellFormed(nodes, height) && IsLeaf(nodes, node) && Moved(nodes, r, node, added, c, s)
    requires s.w in height && h2 == height[added := height[s.w]] && Ranked(r, h2)
    ensures forall k | k in s.before + s.after :: k in nodes && k in r
    ensures KidsContent(r, h2, s.before) == KidsContent(nodes, height, s.before)
    ensures KidsContent(r, h2, s.after) == KidsContent(nodes, height, s.after)
  {
    WrapperParts(nodes, height, r, node, added, c, s);
    MovedFrame(nodes, height, r, node, added, c, s);
    assert forall k | k in s.before :: k in s.before + s.after;
    assert forall k | k in s.after :: k in s.before + s.after;
    PreserveKids(nodes, height, r, h2, Some(s.g), {s.w}, s.before);
    PreserveKids(nodes, height, r, h2, Some(s.g), {s.w}, s.after);
  }

  /** The wrapper and what follows it in its parent read as the wrapper did. */
  lemma MovedMiddle(nodes: Arena, height: Heights, r: Arena, h2: Heights, node: NodeId, added: NodeId, c: string, s: Spot)
    requires WellFormed(nodes, height) && IsLeaf(nodes, node) && Moved(nodes, r, node, added, c, s)
    requires s.w in height && h2 == height[added := height[s.w]] && Ranked(r, h2)
    ensures forall k | k in [s.w] + Lifted(node, added, s.after) :: k in r
    ensures Content(r, h2, s.w) == KidsContent(nodes, height, s.before)
    ensures KidsContent(r, h2, [s.w] + Lifted(node, added, s.after)) == KidsContent(nodes, height, [s.w])
  {
    MovedKeep(nodes, height, r, h2, node, added, c, s);
    WrapperText(nodes, height, s.w, s.before, node, s.after);
    assert Content(r, h2, s.w) == KidsContent(r, h2, s.before);
    assert Content(r, h2, node) == nodes[node].text;
    KidsContentShort(nodes, height, s.w, s.w, s.w);
    if s.after == [] {
      assert KidsContent(nodes, height, s.after) == "";
      KidsContentShort(r, h2, s.w, node, node);
      assert [s.w] + Lifted(node, added, s.after) == [s.w, node];
    } else {
      assert Content(r, h2, added) == KidsContent(r, h2, s.after);
      KidsContentShort(r, h2, s.w, node, added);
      assert [s.w] + Lifted(node, added, s.after) == [s.w, node, added];
    }
  }

  /** The wrapper's parent reads as it did. */
  lemma MovedGrand(nodes: Arena, height: Heights, r: Arena, h2: Heights, node: NodeId, added: NodeId, c: string, s: Spot)
    requires WellFormed(nodes, height) && IsLeaf(nodes, node) && Moved(nodes, r, node, added, c, s)
    requires s.w in height && h2 == height[added := height[s.w]] && Ranked(r, h2)
    ensures Content(r, h2, s.g) == Content(nodes, height, s.g)
  {
    GrandParts(nodes, height, r, node, added, c, s);
    MovedFrame(nodes, height, r, node, added, c, s);
    MovedMiddle(nodes, height, r, h2, node, added, c, s);
    var gk := nodes[s.g].children;
    var lifted := Lifted(node, added, s.after);
    SpliceAt(gk, s.i, lifted);
    Splice(nodes, height, r, h2, s.g, {s.w}, gk[..s.i], [s.w], gk[s.i + 1..], [s.w] + lifted);
  }

  /** Inserting behind position `i` is replacing the one element at `i` by itself and the insertion. */
  lemma SpliceAt(gk: seq<NodeId>, i: nat, lifted: seq<NodeId>)
    requires i < |gk|
    ensures gk[..i + 1] + lifted + gk[i + 1..] == gk[..i] + ([gk[i]] + lifted) + gk[i + 1..]
    ensures gk == gk[..i] + [gk[i]] + gk[i + 1..]
  {
    assert gk[..i + 1] == gk[..i] + [gk[i]];
  }

  lemma MovedContent(nodes: Arena, height: Heights, r: Arena, h2: Heights, node: NodeId, added: NodeId, c: string, s: Spot)
    requires WellFormed(nodes, height) && IsLeaf(nodes, node) && Moved(nodes, r, node, added, c, s)
    requires s.w in height && h2 == height[added := height[s.w]]
    ensures WellFormed(r, h2)
    ensures forall x | x in nodes && x != s.w :: Content(r, h2, x) == Content(nodes, height, x)
  {
    MovedWellFormed(nodes, height, r, h2, node, added, c, s);
    MovedFrame(nodes, height, r, node, added, c, s);
    MovedGrand(nodes, height, r, h2, node, added, c, s);
    forall x | x in nodes && x != s.w ensures Content(r, h2, x) == Content(nodes, height, x) {
      PreserveContent(nodes, height, r, h2, Some(s.g), {s.w}, x);
    }
  }

  /** Where the node, the new element and the wrapper's other siblings end up. */
  lemma SplitOutPlaces(nodes: Arena, height: Heights, node: NodeId, added: NodeId, c: string)
    requires Shared(nodes, height, node, added)
    ensures Linked(nodes, node) && Linked(nodes, nodes[node].parent.value)
    ensures var r := SplitOut(nodes, node, added, c);
            var w := nodes[node].parent.value;
            var g := nodes[w].parent.value;
            var gk := nodes[g].children;
            var i := IndexOf(gk, w);
            var after := After(nodes, node);
            && r[w].children == Before(nodes, node) && r[w].parent == Some(g)
            && |r[g].children| == |gk| + |Lifted(node, added, after)|
            && r[g].children[..i + 1] == gk[..i + 1] && r[g].children[i + 1] == node
            && (after != [] ==> && r[g].children[i + 2] == added && r[g].children[i + 3..] == gk[i + 1..]
                                && r[added].children == after && r[added].classes == {c})
            && (after == [] ==> r[g].children[i + 2..] == gk[i + 1..])
  {
    var r := SplitOut(nodes, node, added, c);
    var sp := SpotOf(nodes, node);
    SplitOutMoved(nodes, height, node, added, c);
    var gk := nodes[sp.g].children;
    var lifted := Lifted(node, added, sp.after);
    assert r[sp.g].children == gk[..sp.i + 1] + lifted + gk[sp.i + 1..];
  }

  /**
    Splitting out keeps the arena well formed and changes the flattened
    text of no node but the wrapper, which keeps the text of the siblings
    in front of the node.
  */
  lemma SplitOutContent(nodes: Arena, height: Heights, node: NodeId, added: NodeId, c: string)
    requires Shared(nodes, height, node, added)
    ensures Linked(nodes, node) && Linked(nodes, nodes[node].parent.value)
    ensures var r := SplitOut(nodes, node, added, c);
            var h2 := SplitOutHeights(height, nodes, node, added);
            var w := nodes[node].parent.value;
            && WellFormed(r, h2)
            && (forall x | x in nodes && x != w :: Content(r, h2, x) == Content(nodes, height, x))
            && Content(r, h2, w) == KidsContent(nodes, height, Before(nodes, node))
  {
    var r := SplitOut(nodes, node, added, c);
    var h2 := SplitOutHeights(height, nodes, node, added);
    var sp := SpotOf(nodes, node);
    SplitOutMoved(nodes, height, node, added, c);
    MovedContent(nodes, height, r, h2, node, added, c, sp);
    MovedMiddle(nodes, height, r, h2, node, added, c, sp);
  }

  /**
    When the node is the first child of the wrapper, the wrapper is left
    in its parent with no children at all.
  */
  lemma SplitOutFirstChild(nodes: Arena, height: Heights, node: NodeId, added: NodeId, c: string)
    requires Shared(nodes, height, node, added)
    requires nodes[nodes[node].parent.value].children[0] == node
    ensures Linked(nodes, node) && Linked(nodes, nodes[node].parent.value)
    ensures var r := SplitOut(nodes, node, added, c);
            var w := nodes[node].parent.value;
            var g := nodes[w].parent.value;
            && w in r && r[w].children == [] && r[w].parent == Some(g)
            && g in r && w in r[g].children
            && WellFormed(r, SplitOutHeights(height, nodes, node, added))
            && Content(r, SplitOutHeights(height, nodes, node, added), w) == ""
  {
    var w := nodes[node].parent.value;
    var wk := nodes[w].children;
    IndexOfFirst(wk, node, 0);
    SplitOutContent(nodes, height, node, added, c);
    SplitOutPlaces(nodes, height, node, added, c);
    var g := nodes[w].parent.value;
    var gk := nodes[g].children;
    var i := IndexOf(gk, w);
    var r := SplitOut(nodes, node, added, c);
    assert r[g].children[..i + 1][i] == w;
  }

  // ---------------------------------------------------------------------
  // wrap, second case, when the wrapper has no parent
  // ---------------------------------------------------------------------

  /**
    The removals that happen before the host fails to find the wrapper's
    parent: `node` and the siblings behind it leave the wrapper, which
    keeps the siblings in front of `node`, and are left detached.
  */
  function Detach(nodes: Arena, node: NodeId): (r: Arena)
    requires Linked(nodes, node) && nodes[node].parent.Some?
    ensures r.Keys == nodes.Keys
  {
    var w := nodes[node].parent.value;
    Adopt(nodes, After(nodes, node), None)
      [w := nodes[w].(children := Before(nodes, node))]
      [node := nodes[node].(parent := None)]
  }

  /** `r` is `nodes` with `node` and the siblings behind it taken out of their parent `w`. */
  ghost predicate Dropped(nodes: Arena, r: Arena, node: NodeId, w: NodeId, before: seq<NodeId>, after: seq<NodeId>) {
    && w in nodes && node in nodes && nodes[node].parent == Some(w)
    && nodes[w].children == before + [node] + after
    && r.Keys == nodes.Keys
    && r[w] == nodes[w].(children := before)
    && r[node] == nodes[node].(parent := None)
    && (forall y | y in after :: y in nodes && r[y] == nodes[y].(parent := None))
    && (forall y | y in nodes && y != w && y != node && y !in after :: r[y] == nodes[y])
  }

  lemma DetachDropped(nodes: Arena, height: Heights, node: NodeId)
    requires WellFormed(nodes, height) && IsLeaf(nodes, node) && nodes[node].parent.Some?
    ensures Linked(nodes, node)
    ensures Dropped(nodes, Detach(nodes, node), node, nodes[node].parent.value, Before(nodes, node), After(nodes, node))
  {
    var w := nodes[node].parent.value;
    var wk := nodes[w].children;
    var k := IndexOf(wk, node);
    assert wk == wk[..k] + [node] + wk[k + 1..];
    SiblingParts(nodes, height, w, Before(nodes, node), node, After(nodes, node));
  }

  /** Every node the detaching changes satisfies the local conditions. */
  lemma DroppedLinks(nodes: Arena, height: Heights, r: Arena, node: NodeId, w: NodeId, before: seq<NodeId>, after: seq<NodeId>)
    requires WellFormed(nodes, height) && IsLeaf(nodes, node) && Dropped(nodes, r, node, w, before, after)
    ensures forall y | y in r && y in ({w, node} + set a | a in after) :: LinksHold(r, height, y)
  {
    SiblingParts(nodes, height, w, before, node, after);
    forall y | y in before ensures y in r && height[y] < height[w] && r[y].parent == Some(w) {
      assert y in before + after;
    }
    if nodes[w].parent.Some? {
      var q := nodes[w].parent.value;
      assert height[w] < height[q];
      assert q !in before + after;
    }
    forall a | a in after ensures LinksHold(r, height, a) {
      assert a in before + after;
      forall y | y in nodes[a].children ensures y in r && height[y] < height[a] && r[y].parent == Some(a) {
        assert nodes[y].parent == Some(a);
        assert height[y] < height[a];
      }
    }
  }

  /** The unchanged nodes and the changed ones agree on the links between them. */
  lemma DroppedCross(nodes: Arena, height: Heights, r: Arena, node: NodeId, w: NodeId, before: seq<NodeId>, after: seq<NodeId>,
                     changed: set<NodeId>)
    requires WellFormed(nodes, height) && IsLeaf(nodes, node) && Dropped(nodes, r, node, w, before, after)
    requires changed == {w, node} + set y | y in after
    ensures forall y | y in r && y !in changed ::
              forall k | k in nodes[y].children && k in changed :: r[k].parent == Some(y)
    ensures forall y | y in r && y !in changed && nodes[y].parent.Some? && nodes[y].parent.value in changed ::
              y in r[nodes[y].parent.value].children
  {
    SiblingParts(nodes, height, w, before, node, after);
    forall y, k | y in r && y !in changed && k in nodes[y].children && k in changed
      ensures r[k].parent == Some(y)
    {
      assert nodes[k].parent == Some(y);
    }
    forall y | y in r && y !in changed && nodes[y].parent.Some? && nodes[y].parent.value in changed
      ensures y in r[nodes[y].parent.value].children
    {
      var z := nodes[y].parent.value;
      assert y in nodes[z].children;
      if z == w {
        assert y in before + [node] + after;
      }
    }
  }

  /** Detaching keeps the arena a well-formed forest. */
  lemma DroppedWellFormed(nodes: Arena, height: Heights, r: Arena, node: NodeId, w: NodeId, before: seq<NodeId>, after: seq<NodeId>)
    requires WellFormed(nodes, height) && IsLeaf(nodes, node) && Dropped(nodes, r, node, w, before, after)
    ensures WellFormed(r, height)
  {
    var changed := {w, node} + set y | y in after;
    DroppedLinks(nodes, height, r, node, w, before, after);
    DroppedCross(nodes, height, r, node, w, before, after, changed);
    Reshape(nodes, height, r, height, changed);
  }

  /**
    Detaching from a wrapper without a parent changes the flattened text
    of no node but the wrapper, which keeps the text of the siblings in
    front of the node.
  */
  lemma DetachContent(nodes: Arena, height: Heights, node: NodeId)
    requires WellFormed(nodes, height) && IsLeaf(nodes, node) && nodes[node].parent.Some?
    requires nodes[nodes[node].parent.value].parent.None?
    ensures Linked(nodes, node)
    ensures var r := Detach(nodes, node);
            var w := nodes[node].parent.value;
            && WellFormed(r, height)
            && r[node].parent.None? && r[w].children == Before(nodes, node)
            && (forall a | a in After(nodes, node) :: a in r && r[a].parent.None?)
            && (forall x | x in nodes && x != w :: Content(r, height, x) == Content(nodes, height, x))
            && Content(r, height, w) == KidsContent(nodes, height, Before(nodes, node))
  {
    var r := Detach(nodes, node);
    var w := nodes[node].parent.value;
    var before, after := Before(nodes, node), After(nodes, node);
    DetachDropped(nodes, height, node);
    DroppedWellFormed(nodes, height, r, node, w, before, after);
    DroppedContent(nodes, height, r, node, w, before, after);
  }

  lemma DroppedContent(nodes: Arena, height: Heights, r: Arena, node: NodeId, w: NodeId, before: seq<NodeId>, after: seq<NodeId>)
    requires WellFormed(nodes, height) && IsLeaf(nodes, node) && Dropped(nodes, r, node, w, before, after)
    requires nodes[w].parent.None? && WellFormed(r, height)
    ensures forall x | x in nodes && x != w :: Content(r, height, x) == Content(nodes, height, x)
    ensures Content(r, height, w) == KidsContent(nodes, height, before)
  {
    SiblingParts(nodes, height, w, before, node, after);
    assert forall k | k in before :: k in before + after;
    PreserveKids(nodes, height, r, height, None, {w}, before);
    forall x | x in nodes && x != w ensures Content(r, height, x) == Content(nodes, height, x) {
      PreserveContent(nodes, height, r, height, None, {w}, x);
    }
  }

  // ---------------------------------------------------------------------
  // wrap on a text node: the three cases
  // ---------------------------------------------------------------------

  /** The ASCII whitespace that a class token may not contain. */
  predicate AsciiSpace(ch: char) {
    ch == ' ' || ch == '\t' || ch == '\n' || ch == '\r' || ch == '\U{000C}'
  }

  /** A string `classList.add` accepts: not empty, without ASCII whitespace. */
  predicate ValidToken(t: string) {
    t != "" && forall i | 0 <= i < |t| :: !AsciiSpace(t[i])
  }

  /** Every class of every element is a valid token, as a class list guarantees. */
  predicate Tokens(nodes: Arena) {
    forall x | x in nodes :: forall t | t in nodes[x].classes :: ValidToken(t)
  }

  /** The arena after a host call, and the exception it raised, if any. */
  datatype Outcome = Outcome(nodes: Arena, error: Option<Error>)

  /**
    `wrap(c)` on an address whose root is the text node `node`: the
    three cases on the node's parent `w`, with the exceptions the host
    raises on a missing parent or an invalid class name.
  */
  function Toggle(nodes: Arena, node: NodeId, c: string, added: NodeId): (o: Outcome)
    requires IsLeaf(nodes, node) && Linked(nodes, node) && added !in nodes && Tokens(nodes)
    requires nodes[node].parent.Some? ==> Linked(nodes, nodes[node].parent.value)
    ensures o.error.None? ==> nodes[node].parent.Some?
    ensures o.nodes.Keys <= nodes.Keys + {added}
  {
    match nodes[node].parent
    case None => Outcome(nodes, Some(TypeError))
    case Some(w) =>
      if c in nodes[w].classes && |nodes[w].children| == 1 then
        if nodes[w].parent.None? then Outcome(nodes, Some(TypeError))
        else Outcome(Unwrap(nodes, node), None)
      else if c in nodes[w].classes then
        if nodes[w].parent.None? then Outcome(Detach(nodes, node), Some(TypeError))
        else Outcome(SplitOut(nodes, node, added, c), None)
      else if c == "" then Outcome(nodes, Some(SyntaxError))
      else if !ValidToken(c) then Outcome(nodes, Some(InvalidCharacterError))
      else Outcome(WrapNew(nodes, node, added, c), None)
  }

  /** The ranking that goes with each case. */
  ghost function ToggleHeights(nodes: Arena, height: Heights, node: NodeId, c: string, added: NodeId): Heights
    requires WellFormed(nodes, height) && IsLeaf(nodes, node)
  {
    match nodes[node].parent
    case None => height
    case Some(w) =>
      if c in nodes[w].classes && |nodes[w].children| != 1 && nodes[w].parent.Some? then height[added := height[w]]
      else if c !in nodes[w].classes && ValidToken(c) then WrapHeights(height, node, added)
      else height
  }

  /** The edit kept every old node, with its kind and its classes. */
  ghost predicate Retains(before: Arena, after: Arena) {
    && before.Keys <= after.Keys
    && forall x | x in before :: after[x].kind == before[x].kind && after[x].classes == before[x].classes
  }

  /** No old node's own characters changed. */
  ghost predicate SameText(before: Arena, after: Arena) {
    forall x | x in before && x in after :: after[x].text == before[x].text
  }

  /** Unwrapping keeps every node's own fields but links. */
  lemma UnwrapRetains(nodes: Arena, node: NodeId)
    requires Linked(nodes, node) && nodes[node].parent.Some?
    requires Linked(nodes, nodes[node].parent.value) && nodes[nodes[node].parent.value].parent.Some?
    requires Tokens(nodes)
    ensures var r := Unwrap(nodes, node);
            Retains(nodes, r) && SameText(nodes, r) && Tokens(r)
  {
  }

  /** Wrapping keeps every node's own fields but links, and adds one carrying `c`. */
  lemma WrapNewRetains(nodes: Arena, node: NodeId, added: NodeId, c: string)
    requires Linked(nodes, node) && nodes[node].parent.Some? && added !in nodes
    requires Tokens(nodes) && ValidToken(c)
    ensures var r := WrapNew(nodes, node, added, c);
            Retains(nodes, r) && SameText(nodes, r) && Tokens(r)
  {
  }

  /** Splitting the wrapper keeps every node's own fields but links. */
  lemma MovedRetains(nodes: Arena, r: Arena, node: NodeId, added: NodeId, c: string, s: Spot)
    requires Moved(nodes, r, node, added, c, s) && Tokens(nodes) && c in nodes[s.w].classes
    ensures Retains(nodes, r) && SameText(nodes, r) && Tokens(r)
  {
  }

  /** Detaching from a root wrapper keeps every node's own fields but links. */
  lemma DroppedRetains(nodes: Arena, r: Arena, node: NodeId, w: NodeId, before: seq<NodeId>, after: seq<NodeId>)
    requires Dropped(nodes, r, node, w, before, after) && Tokens(nodes)
    ensures Retains(nodes, r) && SameText(nodes, r) && Tokens(r)
  {
  }

  /** A new element carries exactly the class `c`, which is a valid token. */
  lemma ToggleTokens(nodes: Arena, height: Heights, node: NodeId, c: string, added: NodeId)
    requires WellFormed(nodes, height) && IsLeaf(nodes, node) && added !in nodes && Tokens(nodes)
    ensures Linked(nodes, node) && (nodes[node].parent.Some? ==> Linked(nodes, nodes[node].parent.value))
    ensures var o := Toggle(nodes, node, c, added);
            Retains(nodes, o.nodes) && SameText(nodes, o.nodes) && Tokens(o.nodes)
  {
    var o := Toggle(nodes, node, c, added);
    if nodes[node].parent.Some? {
      var w := nodes[node].parent.value;
      if c in nodes[w].classes && |nodes[w].children| == 1 && nodes[w].parent.Some? {
        UnwrapRetains(nodes, node);
      } else if c in nodes[w].classes && nodes[w].parent.Some? {
        SplitOutMoved(nodes, height, node, added, c);
        MovedRetains(nodes, o.nodes, node, added, c, SpotOf(nodes, node));
      } else if c in nodes[w].classes && |nodes[w].children| != 1 {
        DetachDropped(nodes, height, node);
        DroppedRetains(nodes, o.nodes, node, w, Before(nodes, node), After(nodes, node));
      } else if c !in nodes[w].classes && ValidToken(c) {
        WrapNewRetains(nodes, node, added, c);
      }
    }
  }

  /**
    `wrap` on a text node keeps the arena a well-formed forest, keeps
    every old node with its kind, text and classes, and changes the
    flattened text of no element that lacks the class `c`: only a wrapper
    that carries `c` can lose text.
  */
  lemma ToggleKeeps(nodes: Arena, height: Heights, node: NodeId, c: string, added: NodeId)
    requires WellFormed(nodes, height) && IsLeaf(nodes, node) && added !in nodes && Tokens(nodes)
    ensures Linked(nodes, node) && (nodes[node].parent.Some? ==> Linked(nodes, nodes[node].parent.value))
    ensures var o := Toggle(nodes, node, c, added);
            var h2 := ToggleHeights(nodes, height, node, c, added);
            && WellFormed(o.nodes, h2) && Retains(nodes, o.nodes) && SameText(nodes, o.nodes) && Tokens(o.nodes)
            && forall x | x in nodes && (nodes[x].kind != Element || c !in nodes[x].classes) ::
                 Content(o.nodes, h2, x) == Content(nodes, height, x)
  {
    ToggleTokens(nodes, height, node, c, added);
    if nodes[node].parent.Some? {
      var w := nodes[node].parent.value;
      if c in nodes[w].classes && |nodes[w].children| == 1 && nodes[w].parent.Some? {
        UnwrapContent(nodes, height, node);
      } else if c in nodes[w].classes && |nodes[w].children| != 1 && nodes[w].parent.Some? {
        SplitOutContent(nodes, height, node, added, c);
      } else if c in nodes[w].classes && |nodes[w].children| != 1 {
        DetachContent(nodes, height, node);
      } else if c !in nodes[w].classes && ValidToken(c) {
        WrapNewContent(nodes, height, node, added, c);
      }
    }
  }

  /**
    `wrap` toggles: wrapping a text node whose parent lacks the class,
    then wrapping it again, gives back the arena it started from, with
    the wrapper of the first call left behind detached and empty.
  */
  lemma ToggleTwice(nodes: Arena, height: Heights, node: NodeId, c: string, a1: NodeId, a2: NodeId)
    requires WellFormed(nodes, height) && IsLeaf(nodes, node) && Tokens(nodes) && ValidToken(c)
    requires nodes[node].parent.Some? && c !in nodes[nodes[node].parent.value].classes
    requires a1 !in nodes && a2 !in nodes && a1 != a2
    ensures Linked(nodes, node) && Linked(nodes, nodes[node].parent.value)
    ensures var o := Toggle(nodes, node, c, a1);
            && o == Outcome(WrapNew(nodes, node, a1, c), None)
            && IsLeaf(o.nodes, node) && Linked(o.nodes, node) && a2 !in o.nodes && Tokens(o.nodes)
            && Linked(o.nodes, o.nodes[node].parent.value)
            && Toggle(o.nodes, node, c, a2) == Outcome(nodes[a1 := Node(Element, "", [], None, {c})], None)
  {
    var o := Toggle(nodes, node, c, a1);
    ToggleKeeps(nodes, height, node, c, a1);
    WrapThenUnwrap(nodes, height, node, a1, c);
    WrapNewWellFormed(nodes, height, node, a1, c);
    assert o.nodes[a1].classes == {c} && o.nodes[a1].children == [node];
  }
}
