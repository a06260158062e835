/**
  The tree indexer: a depth-first walk that gives every node of a subtree
  its character-offset span within the flattened text of the indexing root.

  The host keeps the result in an insertion-ordered map; here the map is
  the ordered list of its entries (children's entries first, then the
  node's own), and `ToMap` gives the lookup that the ordered map answers.
*/
module Indexer {
  import opened Tree

  /** A half-open range `[start, end)` of flattened offsets, scoped to `root`. */
  datatype Address = Address(root: NodeId, start: int, end: int)

  datatype Entry = Entry(node: NodeId, addr: Address)

  /** What one indexing pass returns: the span of the walked node and the map entries. */
  datatype Scan = Scan(span: Address, entries: seq<Entry>)

  predicate IsLeaf(nodes: Arena, id: NodeId) {
    id in nodes && nodes[id].kind == Text
  }

  /**
    Indexes `node` (a descendant of `root`, or `root` itself) starting at
    `offset`.  Text spans its characters, a void node is zero-width, and
    an element lays its children out left to right from `offset`.
  */
  function NodeMapAt(nodes: Arena, ghost height: Heights, root: NodeId, node: NodeId, offset: int): (r: Scan)
    requires Ranked(nodes, height) && node in nodes
    ensures r.span == Address(root, offset, offset + |Content(nodes, height, node)|)
    ensures r.entries != [] && r.entries[|r.entries| - 1] == Entry(node, r.span)
    decreases height[node] + 1, 0, 0
  {
    var n := nodes[node];
    match n.kind
    case Text =>
      var a := Address(root, offset, offset + |n.text|);
      Scan(a, [Entry(node, a)])
    case Void =>
      var a := Address(root, offset, offset);
      Scan(a, [Entry(node, a)])
    case Element =>
      var (scanOffset, kidEntries) := ScanChildren(nodes, height, root, n.children, offset);
      var span := Address(root, offset, scanOffset);
      Scan(span, kidEntries + [Entry(node, span)])
  }

  /**
    A text node is indexed as its characters from `offset`, a node with no
    children as the empty span at `offset`; either way its map holds that
    one entry and nothing else.
  */
  lemma LeafAndVoidSpans(nodes: Arena, height: Heights, root: NodeId, node: NodeId, offset: int)
    requires Ranked(nodes, height) && node in nodes
    requires nodes[node].kind == Text || nodes[node].children == []
    ensures var n := nodes[node];
            var width := if n.kind == Text then |n.text| else 0;
            ToMap(NodeMapAt(nodes, height, root, node, offset).entries) == map[node := Address(root, offset, offset + width)]
  {
    if nodes[node].kind == Element {
      assert ScanChildren(nodes, height, root, [], offset) == (offset, []);
    }
  }

  /** The loop over the children: each child starts where the previous one ended. */
  function ScanChildren(nodes: Arena, ghost height: Heights, root: NodeId, kids: seq<NodeId>, offset: int)
    : (r: (int, seq<Entry>))
    requires Ranked(nodes, height) && forall c | c in kids :: c in nodes
    ensures r.0 == offset + |KidsContent(nodes, height, kids)|
    decreases KidsRank(height, kids), 1, |kids|
  {
    if kids == [] then (offset, [])
    else
      var first := NodeMapAt(nodes, height, root, kids[0], offset);
      var rest := ScanChildren(nodes, height, root, kids[1..], first.span.end);
      (rest.0, first.entries + rest.1)
  }

  /** `getNodeMap(root)`: index the whole subtree of `root` from offset 0. */
  function NodeMap(nodes: Arena, ghost height: Heights, root: NodeId): Scan
    requires Ranked(nodes, height) && root in nodes
  {
    NodeMapAt(nodes, height, root, root, 0)
  }

  /** The entries that belong to text nodes, in their original order. */
  function TextEntries(nodes: Arena, es: seq<Entry>): (r: seq<Entry>)
    ensures |r| <= |es|
    decreases |es|
  {
    if es == [] then []
    else (if IsLeaf(nodes, es[0].node) then [es[0]] else []) + TextEntries(nodes, es[1..])
  }

  /** The filter keeps exactly the entries of text nodes. */
  lemma {:induction false} TextEntriesMembers(nodes: Arena, es: seq<Entry>)
    ensures forall e :: e in TextEntries(nodes, es) <==> e in es && IsLeaf(nodes, e.node)
    decreases |es|
  {
    if es != [] {
      TextEntriesMembers(nodes, es[1..]);
      assert forall e | e in es :: e == es[0] || e in es[1..];
    }
  }

  /** `getLeafMap(root)`: the node map restricted to text nodes. */
  function LeafMap(nodes: Arena, ghost height: Heights, root: NodeId): Scan
    requires Ranked(nodes, height) && root in nodes
  {
    var s := NodeMap(nodes, height, root);
    Scan(s.span, TextEntries(nodes, s.entries))
  }

  /** `new Map(entries)`: a later entry for the same node replaces an earlier one. */
  function ToMap(es: seq<Entry>): (m: map<NodeId, Address>)
    ensures forall e | e in es :: e.node in m
    ensures forall k | k in m :: exists e | e in es :: e.node == k && m[k] == e.addr
    decreases |es|
  {
    if es == [] then map[]
    else
      var last := es[|es| - 1];
      var m := ToMap(es[..|es| - 1]);
      assert forall e | e in es :: e == last || e in es[..|es| - 1];
      assert forall e | e in es[..|es| - 1] :: e in es;
      m[last.node := last.addr]
  }

  predicate DistinctNodes(es: seq<Entry>) {
    forall i, j | 0 <= i < j < |es| :: es[i].node != es[j].node
  }

  function EntryNodes(es: seq<Entry>): set<NodeId> {
    set e | e in es :: e.node
  }

  /** The indexed spans of two arenas with the same layout. */
  ghost predicate SameLayout(n1: Arena, n2: Arena) {
    && n1.Keys == n2.Keys
    && forall x | x in n1 ::
         n1[x].kind == n2[x].kind && n1[x].children == n2[x].children && |n1[x].text| == |n2[x].text|
  }

  // ---------------------------------------------------------------------
  // Every entry's span, read in the flattened text, is the node's own text.
  // ---------------------------------------------------------------------

  ghost predicate SpanReads(nodes: Arena, height: Heights, root: NodeId, whole: string, offset: int, e: Entry)
    requires Ranked(nodes, height)
  {
    && e.node in nodes
    && e.addr.root == root
    && offset <= e.addr.start <= e.addr.end <= offset + |whole|
    && whole[e.addr.start - offset .. e.addr.end - offset] == Content(nodes, height, e.node)
  }

  lemma {:induction false} EntrySpans(nodes: Arena, height: Heights, root: NodeId, node: NodeId, offset: int)
    requires Ranked(nodes, height) && node in nodes
    ensures forall e | e in NodeMapAt(nodes, height, root, node, offset).entries ::
              SpanReads(nodes, height, root, Content(nodes, height, node), offset, e)
    decreases height[node] + 1, 0, 0
  {
    var whole := Content(nodes, height, node);
    assert whole[0..|whole|] == whole;
    if nodes[node].kind == Element {
      var kids := nodes[node].children;
      KidSpans(nodes, height, root, kids, offset);
    }
  }

  lemma {:induction false} KidSpans(nodes: Arena, height: Heights, root: NodeId, kids: seq<NodeId>, offset: int)
    requires Ranked(nodes, height) && forall c | c in kids :: c in nodes
    ensures forall e | e in ScanChildren(nodes, height, root, kids, offset).1 ::
              SpanReads(nodes, height, root, KidsContent(nodes, height, kids), offset, e)
    decreases KidsRank(height, kids), 1, |kids|
  {
    if kids != [] {
      assert kids[0] in kids;
      var first := NodeMapAt(nodes, height, root, kids[0], offset);
      var mid := first.span.end;
      EntrySpans(nodes, height, root, kids[0], offset);
      KidSpans(nodes, height, root, kids[1..], mid);
      var a := Content(nodes, height, kids[0]);
      var b := KidsContent(nodes, height, kids[1..]);
      assert KidsContent(nodes, height, kids) == a + b;
      var rest := ScanChildren(nodes, height, root, kids[1..], mid);
      forall e | e in first.entries + rest.1
        ensures SpanReads(nodes, height, root, a + b, offset, e)
      {
        if e in first.entries {
          ReadsLeft(nodes, height, root, a, b, offset, e);
        } else {
          assert e in rest.1;
          ReadsRight(nodes, height, root, a, b, offset, e);
        }
      }
    }
  }

  /** A span that reads a node within `a` reads it within `a + b`. */
  lemma ReadsLeft(nodes: Arena, height: Heights, root: NodeId, a: string, b: string, offset: int, e: Entry)
    requires Ranked(nodes, height) && SpanReads(nodes, height, root, a, offset, e)
    ensures SpanReads(nodes, height, root, a + b, offset, e)
  {
    var s, t := e.addr.start - offset, e.addr.end - offset;
    assert (a + b)[s..t] == a[s..t];
  }

  /** A span that reads a node within `b`, placed after `a`, reads it within `a + b`. */
  lemma ReadsRight(nodes: Arena, height: Heights, root: NodeId, a: string, b: string, offset: int, e: Entry)
    requires Ranked(nodes, height) && SpanReads(nodes, height, root, b, offset + |a|, e)
    ensures SpanReads(nodes, height, root, a + b, offset, e)
  {
    var s, t := e.addr.start - offset, e.addr.end - offset;
    assert (a + b)[s..t] == b[s - |a|..t - |a|];
  }

  // ---------------------------------------------------------------------
  // The map has exactly one entry per node of the subtree.
  // ---------------------------------------------------------------------

  lemma {:induction false} EntriesCover(nodes: Arena, height: Heights, root: NodeId, node: NodeId, offset: int)
    requires Ranked(nodes, height) && node in nodes
    ensures EntryNodes(NodeMapAt(nodes, height, root, node, offset).entries) == Subtree(nodes, height, node)
    decreases height[node] + 1, 0, 0
  {
    var r := NodeMapAt(nodes, height, root, node, offset);
    if nodes[node].kind == Element {
      var kids := nodes[node].children;
      KidsCover(nodes, height, root, kids, offset);
      var kidEntries := ScanChildren(nodes, height, root, kids, offset).1;
      assert r.entries == kidEntries + [Entry(node, r.span)];
      EntryNodesAppend(kidEntries, [Entry(node, r.span)]);
      assert EntryNodes([Entry(node, r.span)]) == {node};
      forall y ensures y in EntryNodes(r.entries) <==> y in Subtree(nodes, height, node) {
        if y in Subtree(nodes, height, node) && y != node {
          var c :| c in kids && y in Subtree(nodes, height, c);
        }
      }
    } else {
      assert r.entries == [Entry(node, r.span)];
      assert EntryNodes(r.entries) == {node};
    }
  }

  lemma {:induction false} KidsCover(nodes: Arena, height: Heights, root: NodeId, kids: seq<NodeId>, offset: int)
    requires Ranked(nodes, height) && forall c | c in kids :: c in nodes
    ensures forall y :: y in EntryNodes(ScanChildren(nodes, height, root, kids, offset).1)
                    <==> exists c | c in kids :: y in Subtree(nodes, height, c)
    decreases KidsRank(height, kids), 1, |kids|
  {
    if kids != [] {
      assert kids[0] in kids;
      var first := NodeMapAt(nodes, height, root, kids[0], offset);
      EntriesCover(nodes, height, root, kids[0], offset);
      KidsCover(nodes, height, root, kids[1..], first.span.end);
      var rest := ScanChildren(nodes, height, root, kids[1..], first.span.end).1;
      EntryNodesAppend(first.entries, rest);
      forall y ensures y in EntryNodes(first.entries + rest) <==> exists c | c in kids :: y in Subtree(nodes, height, c) {
        if c :| c in kids && y in Subtree(nodes, height, c) {
          if c != kids[0] {
            assert c in kids[1..];
          }
        }
        if y in EntryNodes(rest) {
          var c :| c in kids[1..] && y in Subtree(nodes, height, c);
          assert c in kids;
        }
      }
    }
  }

  lemma EntryNodesAppend(a: seq<Entry>, b: seq<Entry>)
    ensures EntryNodes(a + b) == EntryNodes(a) + EntryNodes(b)
  {
  }

  lemma {:induction false} EntriesDistinct(nodes: Arena, height: Heights, root: NodeId, node: NodeId, offset: int)
    requires WellFormed(nodes, height) && node in nodes
    ensures DistinctNodes(NodeMapAt(nodes, height, root, node, offset).entries)
    decreases height[node] + 1, 0, 0
  {
    if nodes[node].kind == Element {
      var kids := nodes[node].children;
      KidsDistinct(nodes, height, root, node, kids, offset);
      var kidEntries := ScanChildren(nodes, height, root, kids, offset).1;
      KidsCover(nodes, height, root, kids, offset);
      forall e | e in kidEntries ensures e.node != node {
        assert e.node in EntryNodes(kidEntries);
        var c :| c in kids && e.node in Subtree(nodes, height, c);
        SubtreeBelow(nodes, height, c, e.node);
      }
    }
  }

  lemma {:induction false} KidsDistinct(nodes: Arena, height: Heights, root: NodeId, p: NodeId, kids: seq<NodeId>, offset: int)
    requires WellFormed(nodes, height) && p in nodes
    requires forall c | c in kids :: c in nodes[p].children
    requires Distinct(kids)
    ensures DistinctNodes(ScanChildren(nodes, height, root, kids, offset).1)
    decreases KidsRank(height, kids), 1, |kids|
  {
    if kids != [] {
      assert kids[0] in kids;
      var first := NodeMapAt(nodes, height, root, kids[0], offset);
      var rest := ScanChildren(nodes, height, root, kids[1..], first.span.end).1;
      EntriesDistinct(nodes, height, root, kids[0], offset);
      KidsDistinct(nodes, height, root, p, kids[1..], first.span.end);
      FirstApart(nodes, height, root, p, kids, offset);
      DistinctAppend(first.entries, rest);
    }
  }

  /** The first child's entries and its later siblings' entries name different nodes. */
  lemma FirstApart(nodes: Arena, height: Heights, root: NodeId, p: NodeId, kids: seq<NodeId>, offset: int)
    requires WellFormed(nodes, height) && p in nodes && kids != []
    requires forall c | c in kids :: c in nodes[p].children
    requires Distinct(kids)
    ensures var first := NodeMapAt(nodes, height, root, kids[0], offset);
            EntryNodes(first.entries) !! EntryNodes(ScanChildren(nodes, height, root, kids[1..], first.span.end).1)
  {
    assert kids[0] in kids;
    var first := NodeMapAt(nodes, height, root, kids[0], offset);
    EntriesCover(nodes, height, root, kids[0], offset);
    KidsCover(nodes, height, root, kids[1..], first.span.end);
    forall x | x in EntryNodes(ScanChildren(nodes, height, root, kids[1..], first.span.end).1)
      ensures x !in Subtree(nodes, height, kids[0])
    {
      var c :| c in kids[1..] && x in Subtree(nodes, height, c);
      SiblingsDisjoint(nodes, height, p, kids[0], c);
    }
  }

  lemma DistinctAppend(a: seq<Entry>, b: seq<Entry>)
    requires DistinctNodes(a) && DistinctNodes(b) && EntryNodes(a) !! EntryNodes(b)
    ensures DistinctNodes(a + b)
  {
    forall i, j | 0 <= i < |a| && 0 <= j < |b| ensures a[i].node != b[j].node {
      assert a[i].node in EntryNodes(a) && b[j].node in EntryNodes(b);
    }
  }

  /** In a list whose nodes are distinct, the map sends each entry's node to that entry's span. */
  lemma {:induction false} ToMapAt(es: seq<Entry>, e: Entry)
    requires DistinctNodes(es) && e in es
    ensures ToMap(es)[e.node] == e.addr
    decreases |es|
  {
    var last := es[|es| - 1];
    if e != last {
      var i :| 0 <= i < |es| && es[i] == e;
      assert i < |es| - 1;
      assert es[..|es| - 1][i] == e;
      ToMapAt(es[..|es| - 1], e);
    }
  }

  // ---------------------------------------------------------------------
  // Spans depend only on the layout: kinds, child order and text lengths.
  // ---------------------------------------------------------------------

  lemma {:induction false} LayoutDeterminesSpans(n1: Arena, h1: Heights, n2: Arena, h2: Heights,
                                                 root: NodeId, node: NodeId, offset: int)
    requires Ranked(n1, h1) && Ranked(n2, h2) && SameLayout(n1, n2) && node in n1
    ensures NodeMapAt(n1, h1, root, node, offset) == NodeMapAt(n2, h2, root, node, offset)
    decreases h1[node] + 1, 0, 0
  {
    if n1[node].kind == Element {
      LayoutDeterminesKids(n1, h1, n2, h2, root, n1[node].children, offset);
    }
  }

  lemma {:induction false} LayoutDeterminesKids(n1: Arena, h1: Heights, n2: Arena, h2: Heights,
                                                root: NodeId, kids: seq<NodeId>, offset: int)
    requires Ranked(n1, h1) && Ranked(n2, h2) && SameLayout(n1, n2)
    requires forall c | c in kids :: c in n1
    ensures ScanChildren(n1, h1, root, kids, offset) == ScanChildren(n2, h2, root, kids, offset)
    decreases KidsRank(h1, kids), 1, |kids|
  {
    if kids != [] {
      assert kids[0] in kids;
      LayoutDeterminesSpans(n1, h1, n2, h2, root, kids[0], offset);
      var first := NodeMapAt(n1, h1, root, kids[0], offset);
      LayoutDeterminesKids(n1, h1, n2, h2, root, kids[1..], first.span.end);
    }
  }

  // ---------------------------------------------------------------------
  // Containers lay their children out left to right.
  // ---------------------------------------------------------------------

  /** The `i`-th child starts where the content of the children before it ends. */
  lemma {:induction false} ChildSpan(nodes: Arena, height: Heights, root: NodeId, kids: seq<NodeId>,
                                     offset: int, i: nat)
    requires Ranked(nodes, height) && (forall c | c in kids :: c in nodes) && i < |kids|
    ensures forall c | c in kids[..i + 1] :: c in nodes
    ensures Entry(kids[i], Address(root, offset + |KidsContent(nodes, height, kids[..i])|,
                                         offset + |KidsContent(nodes, height, kids[..i + 1])|))
            in ScanChildren(nodes, height, root, kids, offset).1
    decreases i
  {
    assert kids[0] in kids;
    var first := NodeMapAt(nodes, height, root, kids[0], offset);
    var rest := ScanChildren(nodes, height, root, kids[1..], first.span.end).1;
    assert ScanChildren(nodes, height, root, kids, offset).1 == first.entries + rest;
    var k0 := Content(nodes, height, kids[0]);
    assert kids[..i + 1][0] == kids[0];
    assert kids[..i + 1][1..] == kids[1..][..i];
    assert KidsContent(nodes, height, kids[..i + 1]) == k0 + KidsContent(nodes, height, kids[1..][..i]);
    if i == 0 {
      assert kids[..0] == [];
      assert kids[1..][..0] == [];
      assert first.entries[|first.entries| - 1] in first.entries;
    } else {
      ChildSpan(nodes, height, root, kids[1..], first.span.end, i - 1);
      assert kids[..i][0] == kids[0];
      assert kids[..i][1..] == kids[1..][..i - 1];
      assert KidsContent(nodes, height, kids[..i]) == k0 + KidsContent(nodes, height, kids[1..][..i - 1]);
      assert kids[1..][..i - 1 + 1] == kids[1..][..i];
    }
  }

  /**
    A container's own entry spans from `offset` to the end of its content,
    and its `i`-th child's entry spans exactly that child's content, placed
    after the content of the children before it.
  */
  lemma ContainerLayout(nodes: Arena, height: Heights, root: NodeId, node: NodeId, offset: int, i: nat)
    requires WellFormed(nodes, height) && node in nodes && nodes[node].kind == Element
    requires i < |nodes[node].children|
    ensures var kids := nodes[node].children;
            var m := ToMap(NodeMapAt(nodes, height, root, node, offset).entries);
            && node in m && m[node] == Address(root, offset, offset + |KidsContent(nodes, height, kids)|)
            && kids[i] in m
            && m[kids[i]] == Address(root, offset + |KidsContent(nodes, height, kids[..i])|,
                                           offset + |KidsContent(nodes, height, kids[..i + 1])|)
  {
    var kids := nodes[node].children;
    var r := NodeMapAt(nodes, height, root, node, offset);
    var kidEntries := ScanChildren(nodes, height, root, kids, offset).1;
    assert r.entries == kidEntries + [Entry(node, r.span)];
    EntriesDistinct(nodes, height, root, node, offset);
    ChildSpan(nodes, height, root, kids, offset, i);
    var e := Entry(kids[i], Address(root, offset + |KidsContent(nodes, height, kids[..i])|,
                                          offset + |KidsContent(nodes, height, kids[..i + 1])|));
    assert e in kidEntries;
    assert e in r.entries;
    ToMapAt(r.entries, e);
    ToMapAt(r.entries, Entry(node, r.span));
  }

  // ---------------------------------------------------------------------
  // The whole map, and the leaf map cut out of it.
  // ---------------------------------------------------------------------

  /**
    `getNodeMap(root)` has an entry for exactly the nodes of the subtree;
    every entry is scoped to `root` and reads, in the root's flattened
    text, exactly the flattened text of its node.
  */
  lemma NodeMapExact(nodes: Arena, height: Heights, root: NodeId)
    requires WellFormed(nodes, height) && root in nodes
    ensures var m := ToMap(NodeMap(nodes, height, root).entries);
            var whole := Content(nodes, height, root);
            && m.Keys == Subtree(nodes, height, root)
            && NodeMap(nodes, height, root).span == Address(root, 0, |whole|)
            && forall x | x in m ::
                 && x in nodes
                 && m[x].root == root
                 && 0 <= m[x].start <= m[x].end <= |whole|
                 && whole[m[x].start..m[x].end] == Content(nodes, height, x)
  {
    var es := NodeMap(nodes, height, root).entries;
    var m := ToMap(es);
    EntriesCover(nodes, height, root, root, 0);
    EntriesDistinct(nodes, height, root, root, 0);
    EntrySpans(nodes, height, root, root, 0);
    forall x | x in m
      ensures x in EntryNodes(es)
      ensures SpanReads(nodes, height, root, Content(nodes, height, root), 0, Entry(x, m[x]))
    {
      var e :| e in es && e.node == x && m[x] == e.addr;
    }
    forall x | x in EntryNodes(es) ensures x in m {
      var e :| e in es && e.node == x;
    }
  }

  /**
    `getLeafMap(root)` keeps exactly the entries of the subtree's text nodes,
    with the spans the full map gives them, and the same root span.
  */
  lemma LeafMapExact(nodes: Arena, height: Heights, root: NodeId)
    requires WellFormed(nodes, height) && root in nodes
    ensures var all := ToMap(NodeMap(nodes, height, root).entries);
            var leaves := ToMap(LeafMap(nodes, height, root).entries);
            && LeafMap(nodes, height, root).span == NodeMap(nodes, height, root).span
            && (forall x :: x in leaves <==> x in Subtree(nodes, height, root) && IsLeaf(nodes, x))
            && (forall x | x in leaves :: x in all && leaves[x] == all[x])
  {
    var es := NodeMap(nodes, height, root).entries;
    var ls := LeafMap(nodes, height, root).entries;
    var leaves := ToMap(ls);
    TextEntriesMembers(nodes, es);
    EntriesCover(nodes, height, root, root, 0);
    EntriesDistinct(nodes, height, root, root, 0);
    forall x ensures x in leaves <==> x in Subtree(nodes, height, root) && IsLeaf(nodes, x) {
      if x in leaves {
        var e :| e in ls && e.node == x && leaves[x] == e.addr;
        assert x in EntryNodes(es);
      }
      if x in Subtree(nodes, height, root) && IsLeaf(nodes, x) {
        assert x in EntryNodes(es);
        var e :| e in es && e.node == x;
        assert e in ls;
      }
    }
    forall x | x in leaves ensures x in ToMap(es) && leaves[x] == ToMap(es)[x] {
      var e :| e in ls && e.node == x && leaves[x] == e.addr;
      ToMapAt(es, e);
    }
  }

  // ---------------------------------------------------------------------
  // The text nodes' spans tile the flattened text.
  // ---------------------------------------------------------------------

  /** Entries whose spans follow one another without gap from `lo` to `hi`. */
  ghost predicate Tiles(es: seq<Entry>, lo: int, hi: int)
    decreases |es|
  {
    if es == [] then lo == hi
    else es[0].addr.start == lo && lo <= es[0].addr.end && Tiles(es[1..], es[0].addr.end, hi)
  }

  lemma {:induction false} TilesAppend(a: seq<Entry>, b: seq<Entry>, lo: int, mid: int, hi: int)
    requires Tiles(a, lo, mid) && Tiles(b, mid, hi)
    ensures Tiles(a + b, lo, hi)
    decreases |a|
  {
    if a == [] {
      assert a + b == b;
    } else {
      assert (a + b)[0] == a[0];
      assert (a + b)[1..] == a[1..] + b;
      TilesAppend(a[1..], b, a[0].addr.end, mid, hi);
    }
  }

  lemma {:induction false} TextEntriesAppend(nodes: Arena, a: seq<Entry>, b: seq<Entry>)
    ensures TextEntries(nodes, a + b) == TextEntries(nodes, a) + TextEntries(nodes, b)
    decreases |a|
  {
    if a == [] {
      assert a + b == b;
    } else {
      assert (a + b)[0] == a[0];
      assert (a + b)[1..] == a[1..] + b;
      TextEntriesAppend(nodes, a[1..], b);
    }
  }

  /** The text entries of an indexing pass tile `[offset, offset + length of the content)`. */
  lemma {:induction false} TextTiles(nodes: Arena, height: Heights, root: NodeId, node: NodeId, offset: int)
    requires Ranked(nodes, height) && node in nodes
    ensures Tiles(TextEntries(nodes, NodeMapAt(nodes, height, root, node, offset).entries),
                  offset, offset + |Content(nodes, height, node)|)
    decreases height[node] + 1, 0, 0
  {
    var r := NodeMapAt(nodes, height, root, node, offset);
    match nodes[node].kind
    case Text =>
      assert TextEntries(nodes, r.entries) == [r.entries[0]];
      assert Tiles(TextEntries(nodes, r.entries)[1..], r.span.end, r.span.end);
    case Void =>
      assert TextEntries(nodes, r.entries) == [];
    case Element =>
      var kids := nodes[node].children;
      var kidEntries := ScanChildren(nodes, height, root, kids, offset).1;
      KidsTextTiles(nodes, height, root, kids, offset);
      TextEntriesAppend(nodes, kidEntries, [Entry(node, r.span)]);
      assert TextEntries(nodes, [Entry(node, r.span)]) == [];
      assert TextEntries(nodes, r.entries) == TextEntries(nodes, kidEntries);
  }

  lemma {:induction false} KidsTextTiles(nodes: Arena, height: Heights, root: NodeId, kids: seq<NodeId>, offset: int)
    requires Ranked(nodes, height) && forall c | c in kids :: c in nodes
    ensures Tiles(TextEntries(nodes, ScanChildren(nodes, height, root, kids, offset).1),
                  offset, offset + |KidsContent(nodes, height, kids)|)
    decreases KidsRank(height, kids), 1, |kids|
  {
    if kids != [] {
      assert kids[0] in kids;
      var first := NodeMapAt(nodes, height, root, kids[0], offset);
      var rest := ScanChildren(nodes, height, root, kids[1..], first.span.end).1;
      var hi := offset + |KidsContent(nodes, height, kids)|;
      assert ScanChildren(nodes, height, root, kids, offset).1 == first.entries + rest;
      assert first.span.end == offset + |Content(nodes, height, kids[0])|;
      assert hi == first.span.end + |KidsContent(nodes, height, kids[1..])|;
      TextTiles(nodes, height, root, kids[0], offset);
      KidsTextTiles(nodes, height, root, kids[1..], first.span.end);
      TextEntriesAppend(nodes, first.entries, rest);
      TilesAppend(TextEntries(nodes, first.entries), TextEntries(nodes, rest), offset, first.span.end, hi);
    }
  }
}
