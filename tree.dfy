/**
  The host document tree, as an arena of nodes keyed by integer handles.

  A node is a text node (it holds characters and never has children), an
  element (an ordered list of child handles, a set of class names) or a
  void node (a non-text node without any child list).  Every node records
  its parent, so that the tree surgery of the highlighter can climb from a
  text node to its wrapper and from the wrapper to the wrapper's parent.

  The arena may hold detached nodes (a wrapper that was unwrapped stays in
  the arena with no parent and no children), so it is a forest.  A ghost
  map `height` ranks the nodes (every child is strictly lower than its
  parent); it only serves to prove that the recursive walks terminate.
*/
module Tree {

  type NodeId = int

  datatype Option<T> = None | Some(value: T)

  datatype Kind = Text | Element | Void

  datatype Node = Node(kind: Kind, text: string, children: seq<NodeId>, parent: Option<NodeId>, classes: set<string>)

  type Arena = map<NodeId, Node>

  type Heights = map<NodeId, nat>

  /** Every child exists and is ranked strictly below its parent. */
  ghost predicate Ranked(nodes: Arena, height: Heights) {
    && nodes.Keys <= height.Keys
    && forall p | p in nodes ::
         forall c | c in nodes[p].children :: c in nodes && height[c] < height[p]
  }

  /** The child lists and the parent links describe the same forest. */
  ghost predicate WellFormed(nodes: Arena, height: Heights) {
    && Ranked(nodes, height)
    && (forall p | p in nodes :: nodes[p].kind != Element ==> nodes[p].children == [])
    && (forall p | p in nodes :: forall c | c in nodes[p].children :: nodes[c].parent == Some(p))
    && (forall p | p in nodes :: Distinct(nodes[p].children))
    && (forall c | c in nodes && nodes[c].parent.Some? ::
          nodes[c].parent.value in nodes && c in nodes[nodes[c].parent.value].children)
  }

  predicate Distinct(s: seq<NodeId>) {
    forall i, j | 0 <= i < j < |s| :: s[i] != s[j]
  }

  /** The part of a node that the indexer and the flattened content look at. */
  predicate SameShape(a: Node, b: Node) {
    a.kind == b.kind && a.text == b.text && a.children == b.children
  }

  /** One more than the highest rank among `kids` (0 for no kids). */
  ghost function KidsRank(height: Heights, kids: seq<NodeId>): (r: nat)
    requires forall c | c in kids :: c in height
    ensures forall c | c in kids :: height[c] < r
    ensures r == 0 || exists c | c in kids :: r == height[c] + 1
  {
    if kids == [] then 0
    else
      var first := kids[0];
      assert first in kids;
      var rest := KidsRank(height, kids[1..]);
      assert forall c | c in kids :: c == first || c in kids[1..];
      if height[first] + 1 > rest then height[first] + 1
      else
        assert rest == 0 || exists c | c in kids[1..] :: rest == height[c] + 1;
        rest
  }

  /** The flattened text of a subtree: its text nodes' characters in document order. */
  ghost function Content(nodes: Arena, height: Heights, id: NodeId): string
    requires Ranked(nodes, height) && id in nodes
    decreases height[id] + 1, 0, 0
  {
    match nodes[id].kind
    case Text => nodes[id].text
    case Void => ""
    case Element => KidsContent(nodes, height, nodes[id].children)
  }

  ghost function KidsContent(nodes: Arena, height: Heights, kids: seq<NodeId>): string
    requires Ranked(nodes, height) && forall c | c in kids :: c in nodes
    decreases KidsRank(height, kids), 1, |kids|
  {
    if kids == [] then "" else Content(nodes, height, kids[0]) + KidsContent(nodes, height, kids[1..])
  }

  /** The handles of a node and all its descendants. */
  ghost function Subtree(nodes: Arena, height: Heights, id: NodeId): set<NodeId>
    requires Ranked(nodes, height) && id in nodes
    decreases height[id]
  {
    {id} + if nodes[id].kind != Element then {}
           else set c, y | c in nodes[id].children && y in Subtree(nodes, height, c) :: y
  }

  lemma {:induction false} KidsContentAppend(nodes: Arena, height: Heights, a: seq<NodeId>, b: seq<NodeId>)
    requires Ranked(nodes, height)
    requires forall c | c in a :: c in nodes
    requires forall c | c in b :: c in nodes
    ensures KidsContent(nodes, height, a + b) == KidsContent(nodes, height, a) + KidsContent(nodes, height, b)
    decreases |a|
  {
    if a == [] {
      assert a + b == b;
    } else {
      assert (a + b)[0] == a[0];
      assert (a + b)[1..] == a[1..] + b;
      KidsContentAppend(nodes, height, a[1..], b);
    }
  }

  /** Everything in a subtree exists and is ranked no higher than its root. */
  lemma {:induction false} SubtreeBelow(nodes: Arena, height: Heights, x: NodeId, y: NodeId)
    requires Ranked(nodes, height) && x in nodes && y in Subtree(nodes, height, x)
    ensures y in nodes && height[y] <= height[x]
    decreases height[x]
  {
    if y != x {
      var c :| c in nodes[x].children && y in Subtree(nodes, height, c);
      SubtreeBelow(nodes, height, c, y);
    }
  }

  /** Every proper descendant hangs below a parent that is itself in the subtree. */
  lemma {:induction false} ParentInSubtree(nodes: Arena, height: Heights, x: NodeId, y: NodeId)
    requires WellFormed(nodes, height) && x in nodes && y in Subtree(nodes, height, x) && y != x
    ensures y in nodes && nodes[y].parent.Some? && nodes[y].parent.value in Subtree(nodes, height, x)
    decreases height[x]
  {
    var c :| c in nodes[x].children && y in Subtree(nodes, height, c);
    SubtreeBelow(nodes, height, c, y);
    if y == c {
      assert nodes[y].parent == Some(x);
    } else {
      ParentInSubtree(nodes, height, c, y);
      var p := nodes[y].parent.value;
      assert p in Subtree(nodes, height, c);
      assert p in Subtree(nodes, height, x);
    }
  }

  /** Two subtrees that share a node are nested. */
  lemma {:induction false} Nested(nodes: Arena, height: Heights, a: NodeId, b: NodeId, x: NodeId)
    requires WellFormed(nodes, height) && a in nodes && b in nodes
    requires x in Subtree(nodes, height, a) && x in Subtree(nodes, height, b)
    ensures a in Subtree(nodes, height, b) || b in Subtree(nodes, height, a)
    decreases if x in height && height[x] <= height[a] then height[a] - height[x] else 0
  {
    SubtreeBelow(nodes, height, a, x);
    if x != a && x != b {
      ParentInSubtree(nodes, height, a, x);
      ParentInSubtree(nodes, height, b, x);
      var p := nodes[x].parent.value;
      assert height[x] < height[p];
      SubtreeBelow(nodes, height, a, p);
      Nested(nodes, height, a, b, p);
    }
  }

  /** The subtrees of two different children of one node are disjoint. */
  lemma SiblingsDisjoint(nodes: Arena, height: Heights, p: NodeId, c1: NodeId, c2: NodeId)
    requires WellFormed(nodes, height) && p in nodes
    requires c1 in nodes[p].children && c2 in nodes[p].children && c1 != c2
    ensures Subtree(nodes, height, c1) !! Subtree(nodes, height, c2)
  {
    forall x | x in Subtree(nodes, height, c1)
      ensures x !in Subtree(nodes, height, c2)
    {
      if x in Subtree(nodes, height, c2) {
        Nested(nodes, height, c1, c2, x);
        if c1 in Subtree(nodes, height, c2) {
          ParentInSubtree(nodes, height, c2, c1);
          SubtreeBelow(nodes, height, c2, p);
        } else {
          ParentInSubtree(nodes, height, c1, c2);
          SubtreeBelow(nodes, height, c1, p);
        }
        assert false;
      }
    }
  }

  /**
    Content is preserved by an edit of the arena that keeps the shape of
    every node except the nodes in `ex` (whose content may change) and
    the one node `p` (whose child list may change, provided its own
    content is shown to be unchanged), when the nodes of `ex` hang only
    below `p`.  The proof climbs by rank: below `p` nothing changed, and
    above `p` every child list is the old one.
  */
  lemma {:induction false} PreserveContent(n: Arena, h: Heights, n2: Arena, h2: Heights,
                                           p: Option<NodeId>, ex: set<NodeId>, x: NodeId)
    requires Ranked(n, h) && Ranked(n2, h2)
    requires forall y | y in n && y !in ex && Some(y) != p :: y in n2 && SameShape(n[y], n2[y])
    requires forall y | y in n && y !in ex && Some(y) != p :: forall c | c in n[y].children :: c !in ex
    requires p.Some? ==> p.value in n && p.value in n2 && p.value !in ex
    requires x in n && x !in ex
    requires p.Some? ==> h[x] < h[p.value] || Content(n2, h2, p.value) == Content(n, h, p.value)
    ensures x in n2 && Content(n2, h2, x) == Content(n, h, x)
    decreases h[x] + 1, 0, 0
  {
    if Some(x) != p && n[x].kind == Element {
      PreserveKids(n, h, n2, h2, p, ex, n[x].children);
    }
  }

  lemma {:induction false} PreserveKids(n: Arena, h: Heights, n2: Arena, h2: Heights,
                                        p: Option<NodeId>, ex: set<NodeId>, kids: seq<NodeId>)
    requires Ranked(n, h) && Ranked(n2, h2)
    requires forall y | y in n && y !in ex && Some(y) != p :: y in n2 && SameShape(n[y], n2[y])
    requires forall y | y in n && y !in ex && Some(y) != p :: forall c | c in n[y].children :: c !in ex
    requires p.Some? ==> p.value in n && p.value in n2 && p.value !in ex
    requires forall c | c in kids :: c in n && c !in ex
    requires p.Some? ==> (forall c | c in kids :: h[c] < h[p.value]) || Content(n2, h2, p.value) == Content(n, h, p.value)
    ensures forall c | c in kids :: c in n2
    ensures KidsContent(n2, h2, kids) == KidsContent(n, h, kids)
    decreases KidsRank(h, kids), 1, |kids|
  {
    if kids != [] {
      assert kids[0] in kids;
      PreserveContent(n, h, n2, h2, p, ex, kids[0]);
      PreserveKids(n, h, n2, h2, p, ex, kids[1..]);
      assert forall c | c in kids :: c == kids[0] || c in kids[1..];
    }
  }

  /**
    The children of `p` around a replaced run keep their content, so the
    whole list keeps its content when the run `mid` is replaced by a run
    `mid2` with the same content.
  */
  lemma Splice(n: Arena, h: Heights, n2: Arena, h2: Heights, p: NodeId, ex: set<NodeId>,
               pre: seq<NodeId>, mid: seq<NodeId>, post: seq<NodeId>, mid2: seq<NodeId>)
    requires Ranked(n, h) && Ranked(n2, h2)
    requires forall y | y in n && y !in ex && y != p :: y in n2 && SameShape(n[y], n2[y])
    requires forall y | y in n && y !in ex && y != p :: forall c | c in n[y].children :: c !in ex
    requires p in n && p in n2 && p !in ex
    requires forall c | c in pre + mid + post :: c in n[p].children
    requires forall c | c in pre + post :: c !in ex
    requires forall c | c in mid2 :: c in n2
    requires KidsContent(n2, h2, mid2) == KidsContent(n, h, mid)
    ensures forall c | c in pre + mid2 + post :: c in n2
    ensures KidsContent(n2, h2, pre + mid2 + post) == KidsContent(n, h, pre + mid + post)
  {
    assert forall c | c in pre :: c in pre + mid + post;
    assert forall c | c in post :: c in pre + mid + post;
    assert forall c | c in mid :: c in pre + mid + post;
    PreserveKids(n, h, n2, h2, Some(p), ex, pre);
    PreserveKids(n, h, n2, h2, Some(p), ex, post);
    KidsContentAppend(n, h, pre, mid);
    KidsContentAppend(n, h, pre + mid, post);
    KidsContentAppend(n2, h2, pre, mid2);
    KidsContentAppend(n2, h2, pre + mid2, post);
  }

  /** The local conditions of `WellFormed` at one node. */
  ghost predicate LinksHold(nodes: Arena, height: Heights, y: NodeId)
    requires y in nodes
  {
    var n := nodes[y];
    && (n.kind != Element ==> n.children == [])
    && Distinct(n.children)
    && (forall c | c in n.children :: c in nodes && c in height && y in height && height[c] < height[y] && nodes[c].parent == Some(y))
    && (n.parent.Some? ==> n.parent.value in nodes && y in nodes[n.parent.value].children)
  }

  /**
    An edit that leaves every node outside `changed` as it was keeps the
    forest well formed when the changed nodes satisfy the local conditions
    and agree with the links of the unchanged nodes around them.
  */
  lemma Reshape(n: Arena, h: Heights, n2: Arena, h2: Heights, changed: set<NodeId>)
    requires WellFormed(n, h)
    requires n.Keys <= n2.Keys && n2.Keys <= h2.Keys
    requires forall y | y in n2 && y !in changed :: y in n && n2[y] == n[y]
    requires forall y | y in n2 && y !in changed :: forall c | c in n[y].children :: h2[c] < h2[y]
    requires forall y | y in n2 && y !in changed ::
               forall c | c in n[y].children && c in changed :: n2[c].parent == Some(y)
    requires forall y | y in n2 && y !in changed && n[y].parent.Some? && n[y].parent.value in changed ::
               y in n2[n[y].parent.value].children
    requires forall y | y in n2 && y in changed :: LinksHold(n2, h2, y)
    ensures WellFormed(n2, h2)
  {
    forall y | y in n2 ensures LinksHold(n2, h2, y) {
      if y !in changed {
        assert n2[y] == n[y];
        forall c | c in n2[y].children
          ensures c in n2 && h2[c] < h2[y] && n2[c].parent == Some(y)
        {
          assert c in n && n[c].parent == Some(y);
          if c !in changed {
            assert n2[c] == n[c];
          }
        }
        if n[y].parent.Some? {
          var q := n[y].parent.value;
          assert q in n && y in n[q].children;
          if q !in changed {
            assert n2[q] == n[q];
          }
        }
      }
    }
  }

  /** Inserting a new handle after position `k` keeps a child list free of repeats. */
  lemma DistinctInsert(s: seq<NodeId>, k: nat, x: NodeId)
    requires Distinct(s) && k <= |s| && x !in s
    ensures Distinct(s[..k] + [x] + s[k..])
  {
    var t := s[..k] + [x] + s[k..];
    forall i, j | 0 <= i < j < |t| ensures t[i] != t[j] {
      if j < k {
        assert t[i] == s[i] && t[j] == s[j];
      } else if j == k {
        assert t[i] == s[i];
      } else if i == k {
        assert t[j] == s[j - 1];
      } else if i < k {
        assert t[i] == s[i] && t[j] == s[j - 1];
      } else {
        assert t[i] == s[i - 1] && t[j] == s[j - 1];
      }
    }
  }

  /** Replacing one entry by a new handle keeps a child list free of repeats. */
  lemma DistinctUpdate(s: seq<NodeId>, k: nat, x: NodeId)
    requires Distinct(s) && k < |s| && x !in s[..k] + s[k + 1..]
    ensures Distinct(s[k := x]) && s[k := x] == s[..k] + [x] + s[k + 1..]
  {
    var t := s[k := x];
    assert t == s[..k] + [x] + s[k + 1..];
    forall i, j | 0 <= i < j < |t| ensures t[i] != t[j] {
      if i == k {
        assert t[j] == s[k + 1..][j - k - 1];
      } else if j == k {
        assert t[i] == s[..k][i];
      }
    }
  }

  /** The flattened text of short child lists, node by node. */
  lemma KidsContentShort(nodes: Arena, height: Heights, a: NodeId, b: NodeId, c: NodeId)
    requires Ranked(nodes, height) && a in nodes && b in nodes && c in nodes
    ensures KidsContent(nodes, height, [a]) == Content(nodes, height, a)
    ensures KidsContent(nodes, height, [a, b]) == Content(nodes, height, a) + Content(nodes, height, b)
    ensures KidsContent(nodes, height, [a, b, c]) ==
            Content(nodes, height, a) + Content(nodes, height, b) + Content(nodes, height, c)
  {
    assert [a][1..] == [] && [b][1..] == [] && [c][1..] == [];
    assert KidsContent(nodes, height, [c]) == Content(nodes, height, c);
    assert KidsContent(nodes, height, [b]) == Content(nodes, height, b);
    assert [a, b][1..] == [b];
    assert [b, c][1..] == [c];
    assert KidsContent(nodes, height, [b, c]) == Content(nodes, height, b) + Content(nodes, height, c);
    assert [a, b, c][1..] == [b, c];
  }
}
