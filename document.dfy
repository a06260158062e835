/**
  The live document that `Address.toAtom`, `Address.toAtoms` and
  `Address.wrap` edit in place.

  The host's node objects are the entries of an arena that the methods
  below update; `next` is the handle the host gives to the next node it
  creates (`splitText`, `createElement`).  An address whose root is not a
  node of the document stands for an address over `null`.
*/
module Highlight {
  import opened Tree
  import opened Indexer
  import opened Addresses
  import opened Surgery

  /** The `null` that `previousSibling` gives for a detached node: never a handle of the document. */
  const Null: NodeId := -1

  /** A range that covers one whole, attached text node. */
  ghost predicate Atom(nodes: Arena, t: Address) {
    && IsLeaf(nodes, t.root) && nodes[t.root].parent.Some?
    && t.start == 0 && t.end == |nodes[t.root].text|
  }

  class Document {
    var nodes: Arena
    ghost var height: Heights
    var next: NodeId

    /** A forest whose class lists hold valid tokens, with handles below `next`. */
    ghost predicate Valid()
      reads this
    {
      && WellFormed(nodes, height) && Tokens(nodes)
      && forall x | x in nodes :: 0 <= x < next
    }

    constructor (nodes0: Arena, ghost height0: Heights, next0: NodeId)
      requires WellFormed(nodes0, height0) && Tokens(nodes0)
      requires forall x | x in nodes0 :: 0 <= x < next0
      ensures Valid() && nodes == nodes0 && next == next0
    {
      nodes, height, next := nodes0, height0, next0;
    }

    /**
      `text.splitText(offset)`: the text node keeps the characters before
      `offset` and a new text node, inserted right after it, takes the
      rest.  An offset outside `[0, length]` throws `IndexSizeError`.
    */
    method SplitText(id: NodeId, offset: int) returns (r: Result<NodeId>)
      requires Valid() && IsLeaf(nodes, id)
      modifies this
      ensures Valid() && Retains(old(nodes), nodes)
      ensures forall x | x in old(nodes) :: nodes[x].parent == old(nodes)[x].parent
      ensures forall x | x in old(nodes) && x != id :: nodes[x].text == old(nodes)[x].text
      ensures forall x | x in old(nodes) && x != id :: Content(nodes, height, x) == old(Content(nodes, height, x))
      ensures !(0 <= offset <= |old(nodes)[id].text|) ==> r == Err(IndexSizeError) && nodes == old(nodes)
      ensures 0 <= offset <= |old(nodes)[id].text| ==>
                && r == Ok(old(next)) && r.value !in old(nodes) && nodes.Keys == old(nodes).Keys + {r.value}
                && SplitBy(old(nodes), nodes, id, offset, r.value)
                && nodes[id].text == old(nodes)[id].text[..offset]
                && IsLeaf(nodes, r.value) && nodes[r.value].text == old(nodes)[id].text[offset..]
                && nodes[r.value].parent == old(nodes)[id].parent
                && (nodes[id].parent.Some? ==> PreviousSibling(nodes, r.value) == Some(id))
    {
      if !(0 <= offset <= |nodes[id].text|) {
        return Err(IndexSizeError);
      }
      SplitContent(nodes, height, id, offset, next);
      SplitSibling(nodes, height, id, offset, next);
      SplitRetains(nodes, id, offset, next);
      r := Ok(next);
      nodes, height, next := Split(nodes, id, offset, next), SplitHeights(height, next), next + 1;
    }

    /**
      `toAtom()`: null for a non-text root; the address itself when it
      covers its whole text node; otherwise the text node is split at
      `start` and again at `end`, and the result is the whole middle
      node, `tail.previousSibling`, which is null for a detached node.
    */
    method ToAtom(a: Address) returns (r: Result<Option<Address>>)
      requires Valid()
      modifies this
      ensures Valid() && Retains(old(nodes), nodes)
      ensures forall x | x in old(nodes) :: nodes[x].parent == old(nodes)[x].parent
      ensures forall x | x in old(nodes) && x != a.root :: nodes[x].text == old(nodes)[x].text
      ensures forall x | x in old(nodes) && x != a.root :: Content(nodes, height, x) == old(Content(nodes, height, x))
      ensures Kept(old(nodes), old(height), nodes, height)
      ensures r.Ok? && r.value.Some? ==> IsLeaf(nodes, r.value.value.root) || r.value.value.root == Null
      ensures a.root !in old(nodes) ==> r == Err(TypeError) && nodes == old(nodes)
      ensures a.root in old(nodes) && old(nodes)[a.root].kind != Text ==> r == Ok(None) && nodes == old(nodes)
      ensures IsLeaf(old(nodes), a.root) && a.start == 0 && a.end == |old(nodes)[a.root].text| ==>
                r == Ok(Some(a)) && nodes == old(nodes)
      ensures IsLeaf(old(nodes), a.root) && !(0 <= a.start <= |old(nodes)[a.root].text|) ==>
                r == Err(IndexSizeError) && nodes == old(nodes)
      ensures IsLeaf(old(nodes), a.root) && 0 <= a.start <= |old(nodes)[a.root].text| && !(a.start <= a.end <= |old(nodes)[a.root].text|) ==>
                r == Err(IndexSizeError)
      ensures IsLeaf(old(nodes), a.root) && old(nodes)[a.root].parent.None? && 0 <= a.start <= a.end <= |old(nodes)[a.root].text|
              && !(a.start == 0 && a.end == |old(nodes)[a.root].text|) ==>
                r == Ok(Some(Address(Null, 0, a.end - a.start)))
      ensures IsLeaf(old(nodes), a.root) && old(nodes)[a.root].parent.Some? && 0 <= a.start <= a.end <= |old(nodes)[a.root].text| ==>
                && r.Ok? && r.value.Some? && Atom(nodes, r.value.value)
                && nodes[r.value.value.root].text == old(nodes)[a.root].text[a.start..a.end]
                && (r.value.value.root == a.root || r.value.value.root !in old(nodes))
                && nodes[r.value.value.root].parent == old(nodes)[a.root].parent
    {
      if a.root !in nodes {
        return Err(TypeError);
      }
      if nodes[a.root].kind != Text {
        return Ok(None);
      }
      if a.start == 0 && a.end == |nodes[a.root].text| {
        return Ok(Some(a));
      }
      ghost var text := nodes[a.root].text;
      var rest := SplitText(a.root, a.start);
      if rest.Err? {
        return Err(rest.error);
      }
      assert nodes[rest.value].text == text[a.start..];
      var tail := SplitText(rest.value, a.end - a.start);
      if tail.Err? {
        return Err(tail.error);
      }
      SliceTwice(text, a.start, a.end);
      var previous := PreviousSibling(nodes, tail.value);
      var root := if previous.Some? then previous.value else Null;
      r := Ok(Some(Address(root, 0, a.end - a.start)));
    }

    /**
      `toAtoms()`: every piece of `toLeafs` made an atom, in order, with
      the nulls dropped.  A text root is its own single piece, so its
      atoms are its `toAtom()`, if not null.  For a nonempty range inside
      an element's text every piece becomes a whole attached text node of
      its own, under the parent of the piece's node, and those nodes, read
      in order, hold exactly the range's characters.
    */
    method ToAtoms(a: Address) returns (r: Result<seq<Address>>)
      requires Valid()
      modifies this
      ensures Valid() && Kept(old(nodes), old(height), nodes, height)
      ensures r.Ok? ==> forall t | t in r.value :: IsLeaf(nodes, t.root) || t.root == Null
      ensures a.root !in old(nodes) ==> r == Err(TypeError) && nodes == old(nodes)
      ensures a.root in old(nodes) && old(ToLeafs(nodes, height, a)).None? ==> r == Err(TypeError) && nodes == old(nodes)
      ensures a.root in old(nodes) && old(nodes)[a.root].kind == Void ==> r == Ok([]) && nodes == old(nodes)
      ensures IsLeaf(old(nodes), a.root) && !(0 <= a.start <= a.end <= |old(nodes)[a.root].text|) ==>
                r == Err(IndexSizeError)
      ensures IsLeaf(old(nodes), a.root) && a.start == 0 && a.end == |old(nodes)[a.root].text| ==>
                r == Ok([a]) && nodes == old(nodes)
      ensures IsLeaf(old(nodes), a.root) && old(nodes)[a.root].parent.None? && 0 <= a.start <= a.end <= |old(nodes)[a.root].text|
              && !(a.start == 0 && a.end == |old(nodes)[a.root].text|) ==>
                r == Ok([Address(Null, 0, a.end - a.start)])
      ensures IsLeaf(old(nodes), a.root) && old(nodes)[a.root].parent.Some? && 0 <= a.start <= a.end <= |old(nodes)[a.root].text| ==>
                && r.Ok? && |r.value| == 1 && Atom(nodes, r.value[0])
                && nodes[r.value[0].root].text == old(nodes)[a.root].text[a.start..a.end]
                && OneForOne(old(nodes), nodes, [a], r.value)
      ensures a.root in old(nodes) && old(nodes)[a.root].kind == Element
              && 0 <= a.start < a.end <= old(|Content(nodes, height, a.root)|) ==>
                && r.Ok? && (forall t | t in r.value :: Atom(nodes, t))
                && LeafText(nodes, r.value) == old(Content(nodes, height, a.root))[a.start..a.end]
                && old(ToLeafs(nodes, height, a)).Some?
                && OneForOne(old(nodes), nodes, old(ToLeafs(nodes, height, a)).value, r.value)
    {
      if a.root !in nodes {
        return Err(TypeError);
      }
      if nodes[a.root].kind == Text {
        r := AtomOfText(a);
        return;
      }
      if nodes[a.root].kind == Element && 0 <= a.start < a.end <= |Content(nodes, height, a.root)| {
        ToLeafsReads(nodes, height, a);
        ToLeafsPieces(nodes, height, a);
      }
      var leafs := ToLeafs(nodes, height, a);
      if leafs.None? {
        return Err(TypeError);
      }
      r := AtomsOf(leafs.value);
    }

    /**
      `toAtoms()` on a text root, whose `toLeafs` is the root itself: the
      one `toAtom()`, compacted.
    */
    method AtomOfText(a: Address) returns (r: Result<seq<Address>>)
      requires Valid() && IsLeaf(nodes, a.root)
      modifies this
      ensures Valid() && Kept(old(nodes), old(height), nodes, height)
      ensures r.Ok? ==> forall t | t in r.value :: IsLeaf(nodes, t.root) || t.root == Null
      ensures !(0 <= a.start <= a.end <= |old(nodes)[a.root].text|) ==> r == Err(IndexSizeError)
      ensures a.start == 0 && a.end == |old(nodes)[a.root].text| ==> r == Ok([a]) && nodes == old(nodes)
      ensures old(nodes)[a.root].parent.None? && 0 <= a.start <= a.end <= |old(nodes)[a.root].text|
              && !(a.start == 0 && a.end == |old(nodes)[a.root].text|) ==>
                r == Ok([Address(Null, 0, a.end - a.start)])
      ensures old(nodes)[a.root].parent.Some? && 0 <= a.start <= a.end <= |old(nodes)[a.root].text| ==>
                && r.Ok? && |r.value| == 1 && Atom(nodes, r.value[0])
                && nodes[r.value[0].root].text == old(nodes)[a.root].text[a.start..a.end]
                && OneForOne(old(nodes), nodes, [a], r.value)
    {
      ghost var n0 := nodes;
      var t := ToAtom(a);
      if t.Err? {
        return Err(t.error);
      }
      if t.value.None? {
        return Ok([]);
      }
      r := Ok([t.value.value]);
      if n0[a.root].parent.Some? && 0 <= a.start <= a.end <= |n0[a.root].text| {
        assert Lineage(n0, nodes, [a], r.value);
      }
    }

    /**
      `x.toAtom()` on the `i`-th piece, inside `toAtoms`: when the pieces lie
      in distinct attached text nodes, it yields an atom that extends the
      harvest and the lineage by one.
    */
    method AtomNext(ps: seq<Address>, i: nat, ghost n0: Arena, ghost atoms: seq<Address>, ghost good: bool)
      returns (t: Result<Option<Address>>)
      requires Valid() && i < |ps|
      requires good ==> Harvest(n0, nodes, ps, atoms, i) && Lineage(n0, nodes, ps, atoms)
      modifies this
      ensures Valid() && Kept(old(nodes), old(height), nodes, height)
      ensures t.Ok? && t.value.Some? ==> IsLeaf(nodes, t.value.value.root) || t.value.value.root == Null
      ensures good ==>
                && t.Ok? && t.value.Some?
                && Harvest(n0, nodes, ps, atoms + [t.value.value], i + 1)
                && Lineage(n0, nodes, ps, atoms + [t.value.value])
    {
      ghost var n1 := nodes;
      if good {
        HarvestNext(n0, nodes, ps, atoms, i);
      }
      t := ToAtom(ps[i]);
      if good && t.Ok? {
        HarvestStep(n0, n1, nodes, ps, atoms, i, t.value.value);
        LineageStep(n0, n1, nodes, ps, atoms, t.value.value);
      }
    }

    /**
      `_.compact(pieces.map(x => x.toAtom()))`: the pieces made atoms one
      after the other, stopping at the first exception.  Pieces inside
      distinct attached text nodes become whole text nodes that read what
      the pieces read, one for one.
    */
    method AtomsOf(ps: seq<Address>) returns (r: Result<seq<Address>>)
      requires Valid()
      modifies this
      ensures Valid() && Kept(old(nodes), old(height), nodes, height)
      ensures r.Ok? ==> forall t | t in r.value :: IsLeaf(nodes, t.root) || t.root == Null
      ensures ps == [] ==> r == Ok([]) && nodes == old(nodes)
      ensures Scattered(old(nodes), ps) ==>
                && r.Ok? && (forall t | t in r.value :: Atom(nodes, t))
                && LeafText(nodes, r.value) == LeafText(old(nodes), ps)
                && OneForOne(old(nodes), nodes, ps, r.value)
    {
      if ps == [] {
        return Ok([]);
      }
      ghost var n0, h0 := nodes, height;
      ghost var good := Scattered(nodes, ps);
      if good {
        assert ps[..0] == [];
        LineageStart(nodes, ps);
      }
      var atoms: seq<Address> := [];
      var i := 0;
      while i < |ps|
        invariant 0 <= i <= |ps|
        invariant Valid() && Kept(n0, h0, nodes, height)
        invariant forall t | t in atoms :: IsLeaf(nodes, t.root) || t.root == Null
        invariant good ==> Harvest(n0, nodes, ps, atoms, i) && Lineage(n0, nodes, ps, atoms)
      {
        ghost var n1, h1 := nodes, height;
        var t := AtomNext(ps, i, n0, atoms, good);
        KeptTrans(n0, h0, n1, h1, nodes, height);
        if t.Err? {
          return Err(t.error);
        }
        if t.value.Some? {
          atoms := atoms + [t.value.value];
        }
        i := i + 1;
      }
      if good {
        HarvestDone(n0, nodes, ps, atoms);
      }
      r := Ok(atoms);
    }

    /**
      The text-node branch of `wrap`: one of the three cases of `Toggle`,
      on a fresh handle for the wrapper it may create.
    */
    method WrapText(node: NodeId, c: string) returns (error: Option<Error>)
      requires Valid() && IsLeaf(nodes, node)
      modifies this
      ensures Valid() && Spared(old(nodes), old(height), nodes, height, c)
      ensures var o := Toggle(old(nodes), node, c, old(next));
              nodes == o.nodes && error == o.error
      ensures height == ToggleHeights(old(nodes), old(height), node, c, old(next)) && next == old(next) + 1
    {
      ToggleKeeps(nodes, height, node, c, next);
      ToggleSpared(nodes, height, node, c, next);
      var o := Toggle(nodes, node, c, next);
      nodes, height, next := o.nodes, ToggleHeights(nodes, height, node, c, next), next + 1;
      error := o.error;
    }

    /**
      `wrap` on the first of `roots`, an atom's root: `TypeError` on `null`,
      the text-node branch otherwise; the run over all of `roots` is this
      step followed by the run over the rest.
    */
    method WrapFirst(roots: seq<NodeId>, c: string) returns (error: Option<Error>)
      requires Valid() && roots != [] && forall t | t in roots :: IsLeaf(nodes, t) || t == Null
      modifies this
      ensures Valid() && Spared(old(nodes), old(height), nodes, height, c)
      ensures error.Some? ==> ToggleAll(old(nodes), old(height), roots, c, old(next)) == Outcome(nodes, error)
      ensures error.None? ==>
                && (forall t | t in roots[1..] :: IsLeaf(nodes, t) || t == Null)
                && ToggleAll(old(nodes), old(height), roots, c, old(next)) == ToggleAll(nodes, height, roots[1..], c, next)
    {
      if roots[0] !in nodes {
        return Some(TypeError);
      }
      ghost var n0, h0, x0 := nodes, height, next;
      error := WrapText(roots[0], c);
      ToggleAllCons(n0, h0, roots, c, x0);
    }

    /**
      `atoms.forEach(atom => atom.wrap(className))`: `wrap` on each atom's
      root in turn, stopping at the first exception.  What such a run does
      to bald roots is `BaldRun`.
    */
    method WrapAll(roots: seq<NodeId>, c: string) returns (error: Option<Error>)
      requires Valid() && forall t | t in roots :: IsLeaf(nodes, t) || t == Null
      modifies this
      ensures Valid() && Spared(old(nodes), old(height), nodes, height, c)
      ensures var r := ToggleAll(old(nodes), old(height), roots, c, old(next));
              nodes == r.nodes && error == r.error
    {
      ghost var n0, h0, x0 := nodes, height, next;
      assert roots[0..] == roots;
      var i := 0;
      while i < |roots|
        invariant 0 <= i <= |roots|
        invariant Valid() && Spared(n0, h0, nodes, height, c)
        invariant forall t | t in roots[i..] :: IsLeaf(nodes, t) || t == Null
        invariant ToggleAll(n0, h0, roots, c, x0) == ToggleAll(nodes, height, roots[i..], c, next)
      {
        ghost var n1, h1 := nodes, height;
        assert roots[i..][1..] == roots[i + 1..];
        error := WrapFirst(roots[i..], c);
        SparedTrans(n0, h0, n1, h1, nodes, height, c);
        if error.Some? {
          return;
        }
        i := i + 1;
      }
      assert roots[i..] == [];
      return None;
    }

    /**
      `wrap(className)`: on a text node, the three cases of `Toggle`, with
      the range's offsets ignored; on any other node, `toAtoms` and then
      `wrap` on every atom in turn, stopping at the first exception.  The
      ghost `s` records what `toAtoms` left: the arena, its ranking, the
      next handle and the atoms.  No element that lacks the class ever
      changes its flattened text.
    */
    method Wrap(a: Address, c: string) returns (error: Option<Error>, ghost s: Stage)
      requires Valid()
      modifies this
      ensures Valid() && Spared(old(nodes), old(height), nodes, height, c)
      ensures a.root !in old(nodes) ==> error == Some(TypeError) && nodes == old(nodes)
      ensures IsLeaf(old(nodes), a.root) ==>
                var o := Toggle(old(nodes), a.root, c, old(next));
                nodes == o.nodes && error == o.error
      ensures a.root in old(nodes) && old(nodes)[a.root].kind != Text && old(ToLeafs(nodes, height, a)).None? ==>
                error == Some(TypeError) && nodes == old(nodes)
      ensures a.root in old(nodes) && old(nodes)[a.root].kind != Text ==>
                && Atomized(old(nodes), old(height), a, s)
                && (s.atoms.Err? ==> error == Some(s.atoms.error) && nodes == s.nodes)
                && (s.atoms.Ok? ==>
                      var o := ToggleAll(s.nodes, s.height, Roots(s.atoms.value), c, s.next);
                      nodes == o.nodes && error == o.error)
    {
      s := Stage(nodes, height, next, Ok([]));
      if a.root !in nodes {
        return Some(TypeError), s;
      }
      if nodes[a.root].kind == Text {
        error := WrapText(a.root, c);
        return;
      }
      ghost var n0, h0 := nodes, height;
      var atoms := ToAtoms(a);
      KeptSpared(n0, h0, nodes, height, c);
      s := Stage(nodes, height, next, atoms);
      if atoms.Err? {
        return Some(atoms.error), s;
      }
      var roots := Roots(atoms.value);
      forall t | t in roots ensures IsLeaf(nodes, t) || t == Null {
        var k :| 0 <= k < |roots| && roots[k] == t;
        assert atoms.value[k] in atoms.value;
      }
      ghost var n1, h1 := nodes, height;
      error := WrapAll(roots, c);
      SparedTrans(n0, h0, n1, h1, nodes, height, c);
    }
  }

  lemma SliceTwice(t: string, i: int, j: int)
    requires 0 <= i <= j <= |t|
    ensures t[i..][..j - i] == t[i..j]
  {
  }

  /** `after` is `before` with the text node `id` split at `offset`, the rest in `added`. */
  ghost predicate SplitBy(before: Arena, after: Arena, id: NodeId, offset: int, added: NodeId) {
    && IsLeaf(before, id) && Linked(before, id) && 0 <= offset <= |before[id].text| && added !in before
    && after == Split(before, id, offset, added)
  }

  /**
    An edit that kept every old node with its kind and classes, and the
    flattened text of every node that is not itself a text node.
  */
  ghost predicate Kept(n1: Arena, h1: Heights, n2: Arena, h2: Heights) {
    && Ranked(n1, h1) && Ranked(n2, h2) && Retains(n1, n2)
    && forall x | x in n1 && n1[x].kind != Text :: Content(n2, h2, x) == Content(n1, h1, x)
  }

  lemma KeptTrans(n1: Arena, h1: Heights, n2: Arena, h2: Heights, n3: Arena, h3: Heights)
    requires Kept(n1, h1, n2, h2) && Kept(n2, h2, n3, h3)
    ensures Kept(n1, h1, n3, h3)
  {
  }

  /**
    An edit that kept every old node with its kind and classes, and the
    flattened text of every element that lacks the class `c`.
  */
  ghost predicate Spared(n1: Arena, h1: Heights, n2: Arena, h2: Heights, c: string) {
    && Ranked(n1, h1) && Ranked(n2, h2) && Retains(n1, n2)
    && forall x | x in n1 && n1[x].kind == Element && c !in n1[x].classes :: Content(n2, h2, x) == Content(n1, h1, x)
  }

  lemma SparedTrans(n1: Arena, h1: Heights, n2: Arena, h2: Heights, n3: Arena, h3: Heights, c: string)
    requires Spared(n1, h1, n2, h2, c) && Spared(n2, h2, n3, h3, c)
    ensures Spared(n1, h1, n3, h3, c)
  {
  }

  lemma KeptSpared(n1: Arena, h1: Heights, n2: Arena, h2: Heights, c: string)
    requires Kept(n1, h1, n2, h2)
    ensures Spared(n1, h1, n2, h2, c)
  {
  }

  lemma ToggleSpared(nodes: Arena, height: Heights, node: NodeId, c: string, added: NodeId)
    requires WellFormed(nodes, height) && IsLeaf(nodes, node) && added !in nodes && Tokens(nodes)
    ensures Linked(nodes, node) && (nodes[node].parent.Some? ==> Linked(nodes, nodes[node].parent.value))
    ensures Spared(nodes, height, Toggle(nodes, node, c, added).nodes, ToggleHeights(nodes, height, node, c, added), c)
  {
    ToggleKeeps(nodes, height, node, c, added);
  }

  /** Pieces inside attached text nodes, no text node twice. */
  ghost predicate Scattered(n0: Arena, ps: seq<Address>) {
    && (forall p | p in ps :: ValidPiece(n0, p) && n0[p.root].parent.Some?)
    && (forall k, l | 0 <= k < l < |ps| :: ps[k].root != ps[l].root)
  }

  /**
    Midway through `toAtoms`: the first `i` pieces became the atoms, which
    read what those pieces read in the original arena `n0`, and the pieces
    still to come are untouched and name none of the atoms' nodes.
  */
  ghost predicate Harvest(n0: Arena, nodes: Arena, ps: seq<Address>, atoms: seq<Address>, i: nat)
  {
    && i <= |ps| && |atoms| == i && Scattered(n0, ps)
    && (forall t | t in atoms :: Atom(nodes, t))
    && (forall k, l | 0 <= k < |atoms| && i <= l < |ps| :: atoms[k].root != ps[l].root)
    && (forall l | i <= l < |ps| ::
          IsLeaf(nodes, ps[l].root) && nodes[ps[l].root].text == n0[ps[l].root].text
          && nodes[ps[l].root].parent.Some?)
    && LeafText(nodes, atoms) == LeafText(n0, ps[..i])
  }

  /**
    Where the atoms sit: the atoms so far lie on distinct nodes, each under
    the parent its piece's node had in `n0`, and the nodes of the pieces
    still to come keep their parents.
  */
  ghost predicate Lineage(n0: Arena, nodes: Arena, ps: seq<Address>, atoms: seq<Address>) {
    && |atoms| <= |ps|
    && (forall k, l | 0 <= k < l < |atoms| :: atoms[k].root != atoms[l].root)
    && (forall k | 0 <= k < |atoms| ::
          atoms[k].root in nodes && ps[k].root in n0 && nodes[atoms[k].root].parent == n0[ps[k].root].parent)
    && (forall l | |atoms| <= l < |ps| ::
          ps[l].root in nodes && ps[l].root in n0 && nodes[ps[l].root].parent == n0[ps[l].root].parent)
  }

  /** The atoms are the pieces made nodes one for one: as many, on distinct nodes, under the pieces' parents. */
  ghost predicate OneForOne(n0: Arena, nodes: Arena, ps: seq<Address>, atoms: seq<Address>) {
    |atoms| == |ps| && Lineage(n0, nodes, ps, atoms)
  }

  /** All the pieces' nodes are still where they were when the run starts. */
  lemma LineageStart(n0: Arena, ps: seq<Address>)
    requires forall p | p in ps :: p.root in n0
    ensures Lineage(n0, n0, ps, [])
  {
    forall l | 0 <= l < |ps| ensures ps[l].root in n0 {
      assert ps[l] in ps;
    }
  }

  /**
    Making the next piece the atom `t` extends the lineage: `t` is the
    piece's own node or a new one, so it differs from the earlier atoms,
    and it stays under the piece's parent.
  */
  lemma LineageStep(n0: Arena, n1: Arena, n2: Arena, ps: seq<Address>, atoms: seq<Address>, t: Address)
    requires Lineage(n0, n1, ps, atoms) && |atoms| < |ps|
    requires forall k | 0 <= k < |atoms| :: atoms[k].root != ps[|atoms|].root
    requires forall x | x in n1 :: x in n2 && n2[x].parent == n1[x].parent
    requires t.root == ps[|atoms|].root || t.root !in n1
    requires t.root in n2 && n2[t.root].parent == n1[ps[|atoms|].root].parent
    ensures Lineage(n0, n2, ps, atoms + [t])
  {
  }

  /** The next piece is still a range inside an attached text node. */
  lemma HarvestNext(n0: Arena, nodes: Arena, ps: seq<Address>, atoms: seq<Address>, i: nat)
    requires Harvest(n0, nodes, ps, atoms, i) && i < |ps|
    ensures IsLeaf(nodes, ps[i].root) && nodes[ps[i].root].parent.Some?
    ensures 0 <= ps[i].start <= ps[i].end <= |nodes[ps[i].root].text|
  {
    assert ps[i] in ps;
  }

  /**
    Turning piece `i` into the atom `t` moves the harvest one step: only
    the piece's own node lost characters, and `t` reads what it read.
  */
  /** A harvest over all the pieces is the one-for-one atoms `AtomsOf` promises. */
  lemma HarvestDone(n0: Arena, nodes: Arena, ps: seq<Address>, atoms: seq<Address>)
    requires Harvest(n0, nodes, ps, atoms, |ps|) && Lineage(n0, nodes, ps, atoms)
    ensures forall t | t in atoms :: Atom(nodes, t)
    ensures LeafText(nodes, atoms) == LeafText(n0, ps)
    ensures OneForOne(n0, nodes, ps, atoms)
  {
    assert ps[..|ps|] == ps;
  }

  lemma HarvestStep(n0: Arena, n1: Arena, n2: Arena, ps: seq<Address>, atoms: seq<Address>, i: nat, t: Address)
    requires Harvest(n0, n1, ps, atoms, i) && i < |ps|
    requires Retains(n1, n2)
    requires forall x | x in n1 :: n2[x].parent == n1[x].parent
    requires forall x | x in n1 && x != ps[i].root :: n2[x].text == n1[x].text
    requires Atom(n2, t) && n2[t.root].text == n1[ps[i].root].text[ps[i].start..ps[i].end]
    requires t.root == ps[i].root || t.root !in n1
    ensures Harvest(n0, n2, ps, atoms + [t], i + 1)
  {
    var p := ps[i];
    assert p in ps;
    forall k | 0 <= k < |atoms| ensures atoms[k].root != p.root {
    }
    assert forall u | u in atoms :: u.root in n1 && u.root != p.root;
    LeafTextFrame(n1, n2, atoms);
    LeafTextAppend(n2, atoms, [t]);
    assert LeafText(n2, [t]) == n2[t.root].text[t.start..t.end];
    assert ps[..i + 1] == ps[..i] + [p];
    forall q | q in ps[..i] ensures ValidPiece(n0, q) {
      assert q in ps;
    }
    LeafTextAppend(n0, ps[..i], [p]);
    assert LeafText(n0, [p]) == n0[p.root].text[p.start..p.end];
    forall k, l | 0 <= k < |atoms| + 1 && i + 1 <= l < |ps| ensures (atoms + [t])[k].root != ps[l].root {
      if k == |atoms| {
        assert ps[l] in ps;
      }
    }
  }

  /** The roots of a run of atoms, in order. */
  function Roots(ts: seq<Address>): seq<NodeId> {
    seq(|ts|, k requires 0 <= k < |ts| => ts[k].root)
  }

  /**
    Where `wrap` on an element stands once `toAtoms` is done: the arena,
    its ranking, the next handle, and the atoms or the exception.
  */
  datatype Stage = Stage(nodes: Arena, height: Heights, next: NodeId, atoms: Result<seq<Address>>)

  /** `s` is what `toAtoms` on `a` leaves of the arena `n0`, as `ToAtoms` promises it. */
  ghost predicate Atomized(n0: Arena, h0: Heights, a: Address, s: Stage)
    requires Ranked(n0, h0) && a.root in n0
  {
    && WellFormed(s.nodes, s.height) && Tokens(s.nodes) && (forall x | x in s.nodes :: 0 <= x < s.next)
    && Kept(n0, h0, s.nodes, s.height)
    && (s.atoms.Ok? ==> forall t | t in Roots(s.atoms.value) :: IsLeaf(s.nodes, t) || t == Null)
    && (ToLeafs(n0, h0, a).None? ==> s.atoms == Err(TypeError) && s.nodes == n0)
    && (n0[a.root].kind == Void ==> s.atoms == Ok([]) && s.nodes == n0)
    && (n0[a.root].kind == Element && 0 <= a.start < a.end <= |Content(n0, h0, a.root)| ==>
          && s.atoms.Ok? && (forall t | t in s.atoms.value :: Atom(s.nodes, t))
          && LeafText(s.nodes, s.atoms.value) == Content(n0, h0, a.root)[a.start..a.end]
          && ToLeafs(n0, h0, a).Some? && OneForOne(n0, s.nodes, ToLeafs(n0, h0, a).value, s.atoms.value))
  }

  /**
    `wrap` on each of `roots` in turn: `Toggle` on a text node, with the
    handle `next + k` for the `k`-th, and `TypeError` on `null`; the first
    exception stops the run.
  */
  ghost function ToggleAll(nodes: Arena, height: Heights, roots: seq<NodeId>, c: string, next: NodeId): Outcome
    requires WellFormed(nodes, height) && Tokens(nodes) && forall x | x in nodes :: 0 <= x < next
    requires forall t | t in roots :: IsLeaf(nodes, t) || t == Null
    decreases |roots|
  {
    if roots == [] then Outcome(nodes, None)
    else if roots[0] !in nodes then Outcome(nodes, Some(TypeError))
    else
      ToggleAllNext(nodes, height, roots, c, next);
      var o := Toggle(nodes, roots[0], c, next);
      if o.error.Some? then o
      else ToggleAll(o.nodes, ToggleHeights(nodes, height, roots[0], c, next), roots[1..], c, next + 1)
  }

  /** A run that starts on a text node is `Toggle` on it, then, unless that throws, the run over the rest. */
  lemma ToggleAllCons(nodes: Arena, height: Heights, roots: seq<NodeId>, c: string, next: NodeId)
    requires WellFormed(nodes, height) && Tokens(nodes) && forall x | x in nodes :: 0 <= x < next
    requires forall t | t in roots :: IsLeaf(nodes, t) || t == Null
    requires roots != [] && roots[0] in nodes
    ensures IsLeaf(nodes, roots[0]) && Linked(nodes, roots[0]) && next !in nodes
    ensures nodes[roots[0]].parent.Some? ==> Linked(nodes, nodes[roots[0]].parent.value)
    ensures var o := Toggle(nodes, roots[0], c, next);
            var h := ToggleHeights(nodes, height, roots[0], c, next);
            && WellFormed(o.nodes, h) && Tokens(o.nodes) && (forall x | x in o.nodes :: 0 <= x < next + 1)
            && (forall t | t in roots[1..] :: IsLeaf(o.nodes, t) || t == Null)
            && (o.error.Some? ==> ToggleAll(nodes, height, roots, c, next) == o)
            && (o.error.None? ==> ToggleAll(nodes, height, roots, c, next) == ToggleAll(o.nodes, h, roots[1..], c, next + 1))
  {
    ToggleAllNext(nodes, height, roots, c, next);
  }

  /**
    The first `wrap` of a run meets `Toggle`'s demands, and leaves a ranked
    forest in which the remaining roots are still text nodes or `null`.
  */
  lemma ToggleAllNext(nodes: Arena, height: Heights, roots: seq<NodeId>, c: string, next: NodeId)
    requires WellFormed(nodes, height) && Tokens(nodes) && forall x | x in nodes :: 0 <= x < next
    requires forall t | t in roots :: IsLeaf(nodes, t) || t == Null
    requires roots != [] && roots[0] in nodes
    ensures IsLeaf(nodes, roots[0]) && Linked(nodes, roots[0]) && next !in nodes
    ensures nodes[roots[0]].parent.Some? ==> Linked(nodes, nodes[roots[0]].parent.value)
    ensures var o := Toggle(nodes, roots[0], c, next);
            var h := ToggleHeights(nodes, height, roots[0], c, next);
            && WellFormed(o.nodes, h) && Tokens(o.nodes) && Retains(nodes, o.nodes)
            && (forall x | x in o.nodes :: 0 <= x < next + 1)
            && forall t | t in roots[1..] :: IsLeaf(o.nodes, t) || t == Null
  {
    assert roots[0] in roots;
    ToggleKeeps(nodes, height, roots[0], c, next);
    var o := Toggle(nodes, roots[0], c, next);
    forall t | t in roots[1..] ensures IsLeaf(o.nodes, t) || t == Null {
      assert t in roots;
    }
  }

  /** Distinct attached text nodes, none of whose parents has the class `c`. */
  ghost predicate Bald(nodes: Arena, roots: seq<NodeId>, c: string) {
    && (forall k | 0 <= k < |roots| ::
          && IsLeaf(nodes, roots[k]) && nodes[roots[k]].parent.Some? && nodes[roots[k]].parent.value in nodes
          && c !in nodes[nodes[roots[k]].parent.value].classes)
    && (forall k, l | 0 <= k < l < |roots| :: roots[k] != roots[l])
  }

  /** `node` is the only child of an element with exactly the class `c`, itself a child of `p`. */
  ghost predicate Wrapped(nodes: Arena, node: NodeId, c: string, p: NodeId) {
    && node in nodes && nodes[node].parent.Some? && nodes[node].parent.value in nodes && p in nodes
    && nodes[nodes[node].parent.value] == Node(Element, "", [node], Some(p), {c})
    && nodes[node].parent.value in nodes[p].children
  }

  /** Wrapping `node` keeps every other node's parent and other children, and changes only its parent. */
  lemma WrapNewKeeps(nodes: Arena, height: Heights, node: NodeId, added: NodeId, c: string, x: NodeId)
    requires WellFormed(nodes, height) && IsLeaf(nodes, node) && nodes[node].parent.Some? && added !in nodes
    requires x in nodes && x != node
    ensures var r := WrapNew(nodes, node, added, c);
            && x in r && r[x].parent == nodes[x].parent
            && (forall y | y in nodes[x].children && y != node :: y in r[x].children)
            && (x != nodes[node].parent.value ==> r[x] == nodes[x])
  {
    WrapNewPlaces(nodes, height, node, added, c);
    var r := WrapNew(nodes, node, added, c);
    var p := nodes[node].parent.value;
    if x == p {
      var pk := nodes[p].children;
      var k :| 0 <= k < |pk| && pk[k] == node && r[p].children == pk[..k] + [added] + pk[k + 1..];
      forall y | y in pk && y != node ensures y in r[p].children {
        var j :| 0 <= j < |pk| && pk[j] == y;
        assert r[p].children[j] == y;
      }
    }
  }

  /**
    Midway through `WrapAll` over the bald roots of `n0`: the first `i`
    are wrapped, and the rest are still bald text nodes under their
    parents in `n0`.
  */
  ghost predicate WrappedUpTo(n0: Arena, nodes: Arena, roots: seq<NodeId>, c: string, i: nat)
    requires Bald(n0, roots, c)
  {
    && i <= |roots|
    && (forall k | i <= k < |roots| ::
          && IsLeaf(nodes, roots[k]) && nodes[roots[k]].parent == n0[roots[k]].parent
          && n0[roots[k]].parent.value in nodes && c !in nodes[n0[roots[k]].parent.value].classes)
    && (forall k | 0 <= k < i :: Wrapped(nodes, roots[k], c, n0[roots[k]].parent.value))
  }

  /** A root wrapped earlier stays wrapped when another bald text node is wrapped. */
  lemma WrappedKeep(nodes: Arena, height: Heights, node: NodeId, added: NodeId, c: string, r: NodeId, p: NodeId)
    requires WellFormed(nodes, height) && IsLeaf(nodes, node) && nodes[node].parent.Some? && added !in nodes
    requires nodes[node].parent.value in nodes && c !in nodes[nodes[node].parent.value].classes
    requires Wrapped(nodes, r, c, p) && r != node
    ensures Wrapped(WrapNew(nodes, node, added, c), r, c, p)
  {
    var w := nodes[r].parent.value;
    assert r in nodes[w].children;
    assert w in nodes[p].children;
    WrapNewKeeps(nodes, height, node, added, c, r);
    WrapNewKeeps(nodes, height, node, added, c, w);
    WrapNewKeeps(nodes, height, node, added, c, p);
  }

  /**
    Wrapping the next bald root is the creation of its wrapper, and keeps
    the roots before it wrapped and the roots after it bald.
  */
  lemma WrappedStep(n0: Arena, nodes: Arena, height: Heights, roots: seq<NodeId>, c: string, next: NodeId, i: nat)
    requires WellFormed(nodes, height) && Tokens(nodes) && next !in nodes
    requires ValidToken(c) && Bald(n0, roots, c) && WrappedUpTo(n0, nodes, roots, c, i) && i < |roots|
    ensures IsLeaf(nodes, roots[i]) && Linked(nodes, roots[i]) && nodes[roots[i]].parent.Some?
    ensures Linked(nodes, nodes[roots[i]].parent.value)
    ensures var o := Toggle(nodes, roots[i], c, next);
            o.error.None? && WrappedUpTo(n0, o.nodes, roots, c, i + 1)
  {
    var ri := roots[i];
    var p := nodes[ri].parent.value;
    WellFormedLinked(nodes, height, ri);
    WellFormedLinked(nodes, height, p);
    WrapNewPlaces(nodes, height, ri, next, c);
    WrapNewRetains(nodes, ri, next, c);
    var n1 := WrapNew(nodes, ri, next, c);
    forall k | i < k < |roots|
      ensures n1[roots[k]] == nodes[roots[k]]
    {
      assert roots[k] != ri;
      assert roots[k] != p by {
        assert ri in nodes[p].children;
      }
    }
    forall k | 0 <= k < i
      ensures Wrapped(n1, roots[k], c, n0[roots[k]].parent.value)
    {
      WrappedKeep(nodes, height, ri, next, c, roots[k], n0[roots[k]].parent.value);
    }
    assert Wrapped(n1, ri, c, p) by {
      var pk := nodes[p].children;
      var k :| 0 <= k < |pk| && pk[k] == ri && n1[p].children == pk[..k] + [next] + pk[k + 1..];
      assert n1[p].children[k] == next;
    }
    assert Toggle(nodes, ri, c, next) == Outcome(n1, None);
  }

  /** Bald roots are wrapped up to `i`, and still bald text nodes from `i` on. */
  lemma BaldStart(n0: Arena, roots: seq<NodeId>, c: string)
    requires Bald(n0, roots, c)
    ensures WrappedUpTo(n0, n0, roots, c, 0)
  {
  }

  /** The rest of a run over bald roots, from the `i`-th on, throws nothing and wraps them all. */
  lemma {:induction false} BaldRest(n0: Arena, nodes: Arena, height: Heights, roots: seq<NodeId>, c: string, next: NodeId, i: nat)
    requires WellFormed(nodes, height) && Tokens(nodes) && forall x | x in nodes :: 0 <= x < next
    requires ValidToken(c) && Bald(n0, roots, c) && WrappedUpTo(n0, nodes, roots, c, i)
    ensures forall t | t in roots[i..] :: IsLeaf(nodes, t) || t == Null
    ensures var r := ToggleAll(nodes, height, roots[i..], c, next);
            r.error.None? && WrappedUpTo(n0, r.nodes, roots, c, |roots|)
    decreases |roots| - i
  {
    forall t | t in roots[i..] ensures IsLeaf(nodes, t) {
      var j :| 0 <= j < |roots[i..]| && roots[i..][j] == t;
      assert roots[i + j] == t;
    }
    if i < |roots| {
      var rs := roots[i..];
      assert rs[0] == roots[i] && rs[1..] == roots[i + 1..];
      ToggleAllNext(nodes, height, rs, c, next);
      WrappedStep(n0, nodes, height, roots, c, next, i);
      var o := Toggle(nodes, roots[i], c, next);
      BaldRest(n0, o.nodes, ToggleHeights(nodes, height, roots[i], c, next), roots, c, next + 1, i + 1);
    } else {
      assert roots[i..] == [];
    }
  }

  /**
    `wrap` on distinct attached text nodes whose parents lack the class,
    with a valid class name, throws nothing, and leaves every root the only
    child of its own new element with exactly that class, in the root's
    old parent.
  */
  lemma BaldRun(nodes: Arena, height: Heights, roots: seq<NodeId>, c: string, next: NodeId)
    requires WellFormed(nodes, height) && Tokens(nodes) && forall x | x in nodes :: 0 <= x < next
    requires ValidToken(c) && Bald(nodes, roots, c)
    ensures forall t | t in roots :: IsLeaf(nodes, t) || t == Null
    ensures var r := ToggleAll(nodes, height, roots, c, next);
            && r.error.None?
            && forall k | 0 <= k < |roots| :: Wrapped(r.nodes, roots[k], c, nodes[roots[k]].parent.value)
  {
    BaldStart(nodes, roots, c);
    BaldRest(nodes, nodes, height, roots, c, next, 0);
    assert roots[0..] == roots;
  }

  /** No piece's text node sits under a parent that already carries `c`. */
  ghost predicate ParentsLack(n0: Arena, ps: seq<Address>, c: string) {
    forall p | p in ps && p.root in n0 && n0[p.root].parent.Some? && n0[p.root].parent.value in n0 ::
      c !in n0[n0[p.root].parent.value].classes
  }

  /**
    `wrap` on a nonempty range inside an element whose pieces' parents lack
    the class: no exception, one atom per piece, and each atom ends up the
    only child of its own new element carrying the class, placed under the
    parent its piece's text node had before `toAtoms`.
  */
  lemma WrapElementBald(n0: Arena, h0: Heights, a: Address, s: Stage, c: string)
    requires WellFormed(n0, h0) && a.root in n0 && n0[a.root].kind == Element
    requires 0 <= a.start < a.end <= |Content(n0, h0, a.root)|
    requires Atomized(n0, h0, a, s) && ValidToken(c)
    requires ParentsLack(n0, ToLeafs(n0, h0, a).value, c)
    ensures s.atoms.Ok? && |s.atoms.value| == |ToLeafs(n0, h0, a).value|
    ensures var o := ToggleAll(s.nodes, s.height, Roots(s.atoms.value), c, s.next);
            && o.error.None?
            && forall k | 0 <= k < |s.atoms.value| ::
                 && ToLeafs(n0, h0, a).value[k].root in n0
                 && n0[ToLeafs(n0, h0, a).value[k].root].parent.Some?
                 && Wrapped(o.nodes, s.atoms.value[k].root, c, n0[ToLeafs(n0, h0, a).value[k].root].parent.value)
  {
    BaldAtoms(n0, h0, s.nodes, s.height, s.next, ToLeafs(n0, h0, a).value, s.atoms.value, c);
  }

  /** `BaldRun` on atoms that one-for-one replace pieces whose parents lack `c`. */
  lemma BaldAtoms(n0: Arena, h0: Heights, n1: Arena, h1: Heights, next: NodeId, ps: seq<Address>, atoms: seq<Address>, c: string)
    requires WellFormed(n0, h0) && WellFormed(n1, h1) && Tokens(n1) && (forall x | x in n1 :: 0 <= x < next)
    requires Retains(n0, n1) && ValidToken(c)
    requires OneForOne(n0, n1, ps, atoms) && ParentsLack(n0, ps, c)
    requires forall t | t in atoms :: Atom(n1, t)
    ensures forall t | t in Roots(atoms) :: IsLeaf(n1, t) || t == Null
    ensures var o := ToggleAll(n1, h1, Roots(atoms), c, next);
            && o.error.None?
            && forall k | 0 <= k < |atoms| ::
                 && ps[k].root in n0 && n0[ps[k].root].parent.Some?
                 && Wrapped(o.nodes, atoms[k].root, c, n0[ps[k].root].parent.value)
  {
    var roots := Roots(atoms);
    AtomsBald(n0, h0, n1, ps, atoms, c);
    BaldRun(n1, h1, roots, c, next);
    var o := ToggleAll(n1, h1, roots, c, next);
    forall k | 0 <= k < |atoms|
      ensures Wrapped(o.nodes, atoms[k].root, c, n0[ps[k].root].parent.value)
    {
      assert roots[k] == atoms[k].root;
    }
  }

  /** Atoms that one-for-one replace attached pieces whose parents lack `c` are `Bald`. */
  lemma AtomsBald(n0: Arena, h0: Heights, n1: Arena, ps: seq<Address>, atoms: seq<Address>, c: string)
    requires WellFormed(n0, h0) && Retains(n0, n1)
    requires OneForOne(n0, n1, ps, atoms) && ParentsLack(n0, ps, c)
    requires forall t | t in atoms :: Atom(n1, t)
    ensures Bald(n1, Roots(atoms), c)
    ensures forall k | 0 <= k < |atoms| ::
              && ps[k].root in n0 && n0[ps[k].root].parent.Some?
              && n1[atoms[k].root].parent == n0[ps[k].root].parent
  {
    var roots := Roots(atoms);
    forall k | 0 <= k < |roots|
      ensures && IsLeaf(n1, roots[k]) && n1[roots[k]].parent.Some?
              && n1[roots[k]].parent.value in n1
              && c !in n1[n1[roots[k]].parent.value].classes
              && n1[roots[k]].parent == n0[ps[k].root].parent
    {
      BaldAtom(n0, h0, n1, ps, atoms, c, k);
    }
    assert forall k, l | 0 <= k < l < |roots| :: roots[k] != roots[l] by {
      assert forall k, l | 0 <= k < l < |atoms| :: atoms[k].root != atoms[l].root;
    }
  }

  /** The `k`-th atom of a one-for-one harvest lies under its piece's old parent, which lacks `c`. */
  lemma BaldAtom(n0: Arena, h0: Heights, n1: Arena, ps: seq<Address>, atoms: seq<Address>, c: string, k: nat)
    requires WellFormed(n0, h0) && Retains(n0, n1)
    requires OneForOne(n0, n1, ps, atoms) && ParentsLack(n0, ps, c)
    requires forall t | t in atoms :: Atom(n1, t)
    requires k < |atoms|
    ensures && IsLeaf(n1, atoms[k].root) && n1[atoms[k].root].parent.Some?
            && n1[atoms[k].root].parent.value in n1
            && c !in n1[n1[atoms[k].root].parent.value].classes
            && n1[atoms[k].root].parent == n0[ps[k].root].parent
  {
    assert atoms[k] in atoms && ps[k] in ps;
    var p := n1[atoms[k].root].parent.value;
    assert p in n0;
  }
}
