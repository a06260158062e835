/**
  `Address.toLeafs`: an address over any node, resolved into addresses
  local to the text nodes it covers.

  The resolution reads the leaf map of the address's root, drops the
  zero-width text nodes, finds the last leaf starting at or before the
  address's start and the first leaf ending at or after its end, and cuts
  the range into a head piece, whole middle leaves and a tail piece.
  Where the host throws (no such leaf), the model returns `None`.
*/
module Addresses {
  import opened Tree
  import opened Indexer

  /** `.filter(x => x[1].start !== x[1].end)`: drop the zero-width entries. */
  function NonEmpty(es: seq<Entry>): (r: seq<Entry>)
    ensures |r| <= |es|
    decreases |es|
  {
    if es == [] then []
    else (if es[0].addr.start != es[0].addr.end then [es[0]] else []) + NonEmpty(es[1..])
  }

  lemma {:induction false} NonEmptyMembers(es: seq<Entry>)
    ensures forall e :: e in NonEmpty(es) <==> e in es && e.addr.start != e.addr.end
    decreases |es|
  {
    if es != [] {
      NonEmptyMembers(es[1..]);
      assert forall e | e in es :: e == es[0] || e in es[1..];
    }
  }

  /**
    The `inverse` list of `toLeafs`: the leaf map's entries with a nonzero
    width.  The host also sorts them by start with a stable sort; the list
    is already strictly sorted (`InverseSorted`), so the sort is the
    identity and is not modelled.
  */
  function Inverse(nodes: Arena, ghost height: Heights, root: NodeId): seq<Entry>
    requires Ranked(nodes, height) && root in nodes
  {
    NonEmpty(LeafMap(nodes, height, root).entries)
  }

  /** `_.findLast(es, x => x[1].start <= at)`, as an index. */
  function FindLast(es: seq<Entry>, at: int): (r: Option<nat>)
    ensures r.Some? ==> r.value < |es| && es[r.value].addr.start <= at
    ensures forall k | (if r.Some? then r.value + 1 else 0) <= k < |es| :: es[k].addr.start > at
    decreases |es|
  {
    if es == [] then None
    else if es[|es| - 1].addr.start <= at then Some(|es| - 1)
    else FindLast(es[..|es| - 1], at)
  }

  /** `_.find(es, x => x[1].end >= at)`, as an index. */
  function Find(es: seq<Entry>, at: int): (r: Option<nat>)
    ensures r.Some? ==> r.value < |es| && es[r.value].addr.end >= at
    ensures forall k | 0 <= k < (if r.Some? then r.value else |es|) :: es[k].addr.end < at
    decreases |es|
  {
    if es == [] then None
    else if es[0].addr.end >= at then Some(0)
    else
      match Find(es[1..], at)
      case None => None
      case Some(k) =>
        assert forall m | 1 <= m < k + 1 :: es[m] == es[1..][m - 1];
        Some(k + 1)
  }

  /** `new Address(x[0], 0, x[1].end - x[1].start)`: the whole of one leaf. */
  function Whole(e: Entry): Address {
    Address(e.node, 0, e.addr.end - e.addr.start)
  }

  function Wholes(es: seq<Entry>): seq<Address> {
    seq(|es|, k requires 0 <= k < |es| => Whole(es[k]))
  }

  /**
    `toLeafs()`.  A text root is returned as it is, a void root gives no
    pieces, and an element root is cut along its inverse list.
  */
  function ToLeafs(nodes: Arena, ghost height: Heights, a: Address): Option<seq<Address>>
    requires Ranked(nodes, height) && a.root in nodes
  {
    match nodes[a.root].kind
    case Text => Some([a])
    case Void => Some([])
    case Element => Cut(Inverse(nodes, height, a.root), a)
  }

  /**
    The element case of `toLeafs`: find the leaf where the range starts and
    the leaf where it ends, then cut.  `None` stands for the exception
    thrown when either leaf is missing.
  */
  function Cut(inverse: seq<Entry>, a: Address): Option<seq<Address>> {
    match FindLast(inverse, a.start)
    case None => None
    case Some(i) =>
      match Find(inverse, a.end)
      case None => None
      case Some(j) => Some(Pieces(inverse, a, i, j))
  }

  /**
    One piece when both ends fall in the same leaf; otherwise a head piece
    in leaf `i`, the whole leaves strictly between, and a tail piece in
    leaf `j`.
  */
  function Pieces(inverse: seq<Entry>, a: Address, i: nat, j: nat): seq<Address>
    requires i < |inverse| && j < |inverse|
  {
    var s := inverse[i];
    var e := inverse[j];
    var startSpot := a.start - s.addr.start;
    var endSpot := a.end - e.addr.start;
    if s.node == e.node then [Address(s.node, startSpot, endSpot)]
    else
      [Address(s.node, startSpot, s.addr.end - s.addr.start)]
      + (if j > i + 1 then Wholes(inverse[i + 1..j]) else [])
      + [Address(e.node, 0, endSpot)]
  }

  lemma PiecesWithin(inverse: seq<Entry>, a: Address, i: nat)
    requires i < |inverse|
    ensures Pieces(inverse, a, i, i)
         == [Address(inverse[i].node, a.start - inverse[i].addr.start, a.end - inverse[i].addr.start)]
  {
  }

  lemma PiecesAcross(inverse: seq<Entry>, a: Address, i: nat, j: nat)
    requires i < |inverse| && j < |inverse| && inverse[i].node != inverse[j].node
    ensures Pieces(inverse, a, i, j)
         == [Address(inverse[i].node, a.start - inverse[i].addr.start, inverse[i].addr.end - inverse[i].addr.start)]
            + (if j > i + 1 then Wholes(inverse[i + 1..j]) else [])
            + [Address(inverse[j].node, 0, a.end - inverse[j].addr.start)]
  {
  }

  // ---------------------------------------------------------------------
  // Reading pieces back.
  // ---------------------------------------------------------------------

  /** A piece is a range inside one text node's characters. */
  ghost predicate ValidPiece(nodes: Arena, p: Address) {
    IsLeaf(nodes, p.root) && 0 <= p.start <= p.end <= |nodes[p.root].text|
  }

  /** The characters the pieces select, one piece after the other. */
  ghost function LeafText(nodes: Arena, ps: seq<Address>): string
    requires forall p | p in ps :: ValidPiece(nodes, p)
    decreases |ps|
  {
    if ps == [] then ""
    else
      var p := ps[0];
      assert p in ps && ValidPiece(nodes, p);
      nodes[p.root].text[p.start..p.end] + LeafText(nodes, ps[1..])
  }

  lemma {:induction false} LeafTextAppend(nodes: Arena, a: seq<Address>, b: seq<Address>)
    requires forall p | p in a :: ValidPiece(nodes, p)
    requires forall p | p in b :: ValidPiece(nodes, p)
    ensures forall p | p in a + b :: ValidPiece(nodes, p)
    ensures LeafText(nodes, a + b) == LeafText(nodes, a) + LeafText(nodes, b)
    decreases |a|
  {
    if a == [] {
      assert a + b == b;
    } else {
      assert (a + b)[0] == a[0];
      assert (a + b)[1..] == a[1..] + b;
      LeafTextAppend(nodes, a[1..], b);
    }
  }

  /** Pieces read the same characters in any arena where their nodes' text is the same. */
  lemma {:induction false} LeafTextFrame(n1: Arena, n2: Arena, ps: seq<Address>)
    requires forall p | p in ps :: ValidPiece(n1, p) && IsLeaf(n2, p.root) && n2[p.root].text == n1[p.root].text
    ensures forall p | p in ps :: ValidPiece(n2, p)
    ensures LeafText(n2, ps) == LeafText(n1, ps)
    decreases |ps|
  {
    if ps != [] {
      assert ps[0] in ps;
      assert forall p | p in ps[1..] :: p in ps;
      LeafTextFrame(n1, n2, ps[1..]);
    }
  }

  // ---------------------------------------------------------------------
  // The inverse list tiles the flattened text with nonempty leaves.
  // ---------------------------------------------------------------------

  /** Entries of positive width that follow one another without gap from `lo` to `hi`. */
  ghost predicate StrictTiles(es: seq<Entry>, lo: int, hi: int) {
    && (es == [] ==> lo == hi)
    && (es != [] ==> es[0].addr.start == lo && es[|es| - 1].addr.end == hi)
    && (forall k | 0 <= k < |es| :: es[k].addr.start < es[k].addr.end)
    && (forall k, l | 0 <= k && l == k + 1 && l < |es| :: es[k].addr.end == es[l].addr.start)
  }

  /** An entry of a text node whose span reads that node's characters in `whole`. */
  ghost predicate Reads(nodes: Arena, whole: string, e: Entry) {
    && IsLeaf(nodes, e.node)
    && 0 <= e.addr.start <= e.addr.end <= |whole|
    && whole[e.addr.start..e.addr.end] == nodes[e.node].text
  }

  lemma {:induction false} NonEmptyTiles(es: seq<Entry>, lo: int, hi: int)
    requires Tiles(es, lo, hi)
    ensures StrictTiles(NonEmpty(es), lo, hi)
    decreases |es|
  {
    if es != [] {
      var rest := NonEmpty(es[1..]);
      NonEmptyTiles(es[1..], es[0].addr.end, hi);
      if es[0].addr.start != es[0].addr.end {
        assert NonEmpty(es) == [es[0]] + rest;
        StrictCons(es[0], rest, hi);
      }
    }
  }

  /** A nonempty entry in front of strict tiles that start where it ends. */
  lemma StrictCons(e: Entry, rest: seq<Entry>, hi: int)
    requires e.addr.start < e.addr.end && StrictTiles(rest, e.addr.end, hi)
    ensures StrictTiles([e] + rest, e.addr.start, hi)
  {
    var s := [e] + rest;
    forall k | 0 < k < |s| ensures s[k] == rest[k - 1] { }
    if rest != [] {
      assert s[|s| - 1] == rest[|rest| - 1];
    }
  }

  lemma {:induction false} StrictOrder(es: seq<Entry>, lo: int, hi: int, k: nat, l: nat)
    requires StrictTiles(es, lo, hi) && k < l < |es|
    ensures es[k].addr.end <= es[l].addr.start
    decreases l - k
  {
    if l > k + 1 {
      StrictOrder(es, lo, hi, k, l - 1);
      assert es[l - 1].addr.end == es[l].addr.start;
    } else {
      assert es[k].addr.end == es[l].addr.start;
    }
  }

  lemma StrictBounds(es: seq<Entry>, lo: int, hi: int, k: nat)
    requires StrictTiles(es, lo, hi) && k < |es|
    ensures lo <= es[k].addr.start < es[k].addr.end <= hi
  {
    if k > 0 {
      StrictOrder(es, lo, hi, 0, k);
    }
    if k < |es| - 1 {
      StrictOrder(es, lo, hi, k, |es| - 1);
    }
  }

  /** The leaves strictly between `i` and `j` tile the gap between them. */
  lemma MiddleTiles(es: seq<Entry>, lo: int, hi: int, i: nat, j: nat)
    requires StrictTiles(es, lo, hi) && i < j < |es|
    ensures StrictTiles(es[i + 1..j], es[i].addr.end, es[j].addr.start)
  {
    var m := es[i + 1..j];
    assert es[i].addr.end == es[i + 1].addr.start;
    assert es[j - 1].addr.end == es[j].addr.start;
    forall k, l | 0 <= k && l == k + 1 && l < |m| ensures m[k].addr.end == m[l].addr.start {
      assert m[k] == es[i + 1 + k] && m[l] == es[i + 1 + l];
    }
  }

  lemma StrictTail(es: seq<Entry>, lo: int, hi: int)
    requires StrictTiles(es, lo, hi) && es != []
    ensures StrictTiles(es[1..], es[0].addr.end, hi)
  {
    var m := es[1..];
    if m != [] {
      assert es[0].addr.end == es[1].addr.start;
    }
    forall k, l | 0 <= k && l == k + 1 && l < |m| ensures m[k].addr.end == m[l].addr.start {
      assert m[k] == es[k + 1] && m[l] == es[l + 1];
    }
  }

  lemma SliceOfSlice(w: string, lo: int, hi: int, i: int, j: int)
    requires 0 <= lo <= hi <= |w| && 0 <= i <= j <= hi - lo
    ensures w[lo..hi][i..j] == w[lo + i..lo + j]
  {
    assert forall k | 0 <= k < j - i :: w[lo..hi][i..j][k] == w[lo + i + k];
  }

  lemma SliceJoin(w: string, a: int, b: int, c: int)
    requires 0 <= a <= b <= c <= |w|
    ensures w[a..c] == w[a..b] + w[b..c]
  {
  }

  /** Whole leaves of positive width are nonempty pieces. */
  lemma WholesValid(nodes: Arena, whole: string, es: seq<Entry>)
    requires forall e | e in es :: Reads(nodes, whole, e) && e.addr.start < e.addr.end
    ensures forall p | p in Wholes(es) :: ValidPiece(nodes, p) && p.start < p.end
  {
    var ws := Wholes(es);
    forall p | p in ws ensures ValidPiece(nodes, p) && p.start < p.end {
      var k :| 0 <= k < |ws| && ws[k] == p;
      assert es[k] in es;
    }
  }

  /** Whole leaves that tile `[lo, hi)` read back `whole[lo..hi]`. */
  lemma {:induction false} Stitch(nodes: Arena, whole: string, es: seq<Entry>, lo: int, hi: int)
    requires StrictTiles(es, lo, hi) && 0 <= lo <= hi <= |whole|
    requires forall e | e in es :: Reads(nodes, whole, e)
    ensures forall p | p in Wholes(es) :: ValidPiece(nodes, p) && p.start < p.end
    ensures LeafText(nodes, Wholes(es)) == whole[lo..hi]
    decreases |es|
  {
    WholesValid(nodes, whole, es);
    if es != [] {
      var e := es[0];
      assert e in es;
      StrictTail(es, lo, hi);
      StrictBounds(es, lo, hi, 0);
      Stitch(nodes, whole, es[1..], e.addr.end, hi);
      StitchStep(nodes, whole, es, lo, hi);
    }
  }

  lemma StitchStep(nodes: Arena, whole: string, es: seq<Entry>, lo: int, hi: int)
    requires es != [] && Reads(nodes, whole, es[0]) && es[0].addr.start == lo
    requires 0 <= lo <= es[0].addr.end <= hi <= |whole|
    requires forall p | p in Wholes(es) :: ValidPiece(nodes, p)
    requires forall p | p in Wholes(es[1..]) :: ValidPiece(nodes, p)
    requires LeafText(nodes, Wholes(es[1..])) == whole[es[0].addr.end..hi]
    ensures LeafText(nodes, Wholes(es)) == whole[lo..hi]
  {
    var e := es[0];
    var ws := Wholes(es);
    assert ws[0] == Whole(e);
    assert ws[1..] == Wholes(es[1..]);
    assert nodes[e.node].text[0..e.addr.end - e.addr.start] == whole[lo..e.addr.end];
    SliceJoin(whole, lo, e.addr.end, hi);
  }

  /** The inverse list tiles the root's flattened text, and each entry reads its leaf. */
  lemma InverseTiles(nodes: Arena, height: Heights, root: NodeId)
    requires Ranked(nodes, height) && root in nodes
    ensures var inv := Inverse(nodes, height, root);
            var whole := Content(nodes, height, root);
            && StrictTiles(inv, 0, |whole|)
            && forall e | e in inv :: e.addr.root == root && Reads(nodes, whole, e)
  {
    var es := NodeMap(nodes, height, root).entries;
    var whole := Content(nodes, height, root);
    TextTiles(nodes, height, root, root, 0);
    NonEmptyTiles(TextEntries(nodes, es), 0, |whole|);
    NonEmptyMembers(TextEntries(nodes, es));
    TextEntriesMembers(nodes, es);
    EntrySpans(nodes, height, root, root, 0);
    forall e | e in Inverse(nodes, height, root) ensures e.addr.root == root && Reads(nodes, whole, e) {
      assert e in es && IsLeaf(nodes, e.node);
      assert SpanReads(nodes, height, root, whole, 0, e);
    }
  }

  /**
    The inverse list is strictly sorted by start, so the host's stable
    `sortBy(start)` leaves it as it is.
  */
  lemma InverseSorted(nodes: Arena, height: Heights, root: NodeId)
    requires Ranked(nodes, height) && root in nodes
    ensures var inv := Inverse(nodes, height, root);
            forall k, l | 0 <= k < l < |inv| :: inv[k].addr.start < inv[l].addr.start
  {
    var inv := Inverse(nodes, height, root);
    InverseTiles(nodes, height, root);
    forall k, l | 0 <= k < l < |inv| ensures inv[k].addr.start < inv[l].addr.start {
      StrictOrder(inv, 0, |Content(nodes, height, root)|, k, l);
    }
  }

  /** Two entries of a map without repeated nodes that share a node are the same entry. */
  lemma SameNodeSameEntry(es: seq<Entry>, e1: Entry, e2: Entry)
    requires DistinctNodes(es) && e1 in es && e2 in es && e1.node == e2.node
    ensures e1 == e2
  {
  }

  /** Different entries of the inverse list belong to different text nodes. */
  lemma InverseDistinct(nodes: Arena, height: Heights, root: NodeId, k: nat, l: nat)
    requires WellFormed(nodes, height) && root in nodes
    requires k < l < |Inverse(nodes, height, root)|
    ensures Inverse(nodes, height, root)[k].node != Inverse(nodes, height, root)[l].node
  {
    var inv := Inverse(nodes, height, root);
    var es := NodeMap(nodes, height, root).entries;
    InverseTiles(nodes, height, root);
    StrictOrder(inv, 0, |Content(nodes, height, root)|, k, l);
    NonEmptyMembers(TextEntries(nodes, es));
    TextEntriesMembers(nodes, es);
    EntriesDistinct(nodes, height, root, root, 0);
    assert inv[k] in inv && inv[l] in inv;
    if inv[k].node == inv[l].node {
      SameNodeSameEntry(es, inv[k], inv[l]);
      assert false;
    }
  }

  // ---------------------------------------------------------------------
  // Cutting a range along a list of leaves that tiles `[0, n)`.
  // ---------------------------------------------------------------------

  /** Cutting fails exactly when there are no leaves or the range leaves `[0, n)`. */
  lemma CutFails(inv: seq<Entry>, n: int, a: Address)
    requires StrictTiles(inv, 0, n)
    ensures Cut(inv, a).None? <==> n == 0 || a.start < 0 || a.end > n
  {
    if inv != [] {
      StrictBounds(inv, 0, n, 0);
      StrictBounds(inv, 0, n, |inv| - 1);
      assert n != 0;
      if a.start >= 0 {
        assert inv[0].addr.start <= a.start;
      } else {
        forall k | 0 <= k < |inv| ensures inv[k].addr.start > a.start {
          StrictBounds(inv, 0, n, k);
        }
      }
      if a.end > n {
        forall k | 0 <= k < |inv| ensures inv[k].addr.end < a.end {
          StrictBounds(inv, 0, n, k);
        }
      } else {
        assert inv[|inv| - 1].addr.end >= a.end;
      }
    }
  }

  /** Where a range with `0 <= start < end <= n` starts and ends. */
  lemma Locate(inv: seq<Entry>, n: int, start: int, end: int) returns (i: nat, j: nat)
    requires StrictTiles(inv, 0, n) && 0 <= start < end <= n
    ensures i <= j < |inv|
    ensures FindLast(inv, start) == Some(i) && Find(inv, end) == Some(j)
    ensures inv[i].addr.start <= start < inv[i].addr.end
    ensures inv[j].addr.start < end <= inv[j].addr.end
  {
    assert inv != [];
    var last := |inv| - 1;
    assert inv[0].addr.start == 0 && inv[last].addr.end == n;
    i := FindLast(inv, start).value;
    j := Find(inv, end).value;
    if i < last {
      assert inv[i].addr.end == inv[i + 1].addr.start;
    }
    if j > 0 {
      assert inv[j - 1].addr.end == inv[j].addr.start;
    }
    if j < i {
      StrictOrder(inv, 0, n, j, i);
    }
  }

  /** The piece of leaf `e` between flattened offsets `lo` and `hi` reads `whole[lo..hi]`. */
  lemma PieceReads(nodes: Arena, whole: string, e: Entry, lo: int, hi: int)
    requires Reads(nodes, whole, e) && e.addr.start <= lo <= hi <= e.addr.end
    ensures var p := Address(e.node, lo - e.addr.start, hi - e.addr.start);
            ValidPiece(nodes, p) && LeafText(nodes, [p]) == whole[lo..hi]
  {
    var p := Address(e.node, lo - e.addr.start, hi - e.addr.start);
    SliceOfSlice(whole, e.addr.start, e.addr.end, p.start, p.end);
    assert LeafText(nodes, [p]) == nodes[e.node].text[p.start..p.end];
  }

  lemma CutAt(inv: seq<Entry>, a: Address, i: nat, j: nat)
    requires i < |inv| && j < |inv|
    requires FindLast(inv, a.start) == Some(i) && Find(inv, a.end) == Some(j)
    ensures Cut(inv, a) == Some(Pieces(inv, a, i, j))
  {
  }

  /** A nonempty range inside `[0, n)` is cut into nonempty pieces that read it back. */
  lemma CutReads(nodes: Arena, whole: string, inv: seq<Entry>, a: Address)
    requires StrictTiles(inv, 0, |whole|) && forall e | e in inv :: Reads(nodes, whole, e)
    requires forall k, l | 0 <= k < l < |inv| :: inv[k].node != inv[l].node
    requires 0 <= a.start < a.end <= |whole|
    ensures var r := Cut(inv, a);
            && r.Some?
            && (forall p | p in r.value :: ValidPiece(nodes, p) && p.start < p.end)
            && LeafText(nodes, r.value) == whole[a.start..a.end]
  {
    var i, j := Locate(inv, |whole|, a.start, a.end);
    CutAt(inv, a, i, j);
    assert inv[i] in inv && inv[j] in inv;
    if i == j {
      CutWithin(nodes, whole, inv, a, i);
    } else {
      MidsRead(nodes, whole, inv, i, j);
      CutAcross(nodes, whole, inv, a, i, j);
    }
  }

  lemma CutWithin(nodes: Arena, whole: string, inv: seq<Entry>, a: Address, i: nat)
    requires i < |inv| && Reads(nodes, whole, inv[i])
    requires inv[i].addr.start <= a.start < a.end <= inv[i].addr.end
    ensures var ps := Pieces(inv, a, i, i);
            && (forall p | p in ps :: ValidPiece(nodes, p) && p.start < p.end)
            && LeafText(nodes, ps) == whole[a.start..a.end]
  {
    PiecesWithin(inv, a, i);
    PieceReads(nodes, whole, inv[i], a.start, a.end);
  }

  lemma CutAcross(nodes: Arena, whole: string, inv: seq<Entry>, a: Address, i: nat, j: nat)
    requires i < j < |inv| && inv[i].node != inv[j].node
    requires Reads(nodes, whole, inv[i]) && Reads(nodes, whole, inv[j])
    requires 0 <= inv[i].addr.end <= inv[j].addr.start <= |whole|
    requires var mids := if j > i + 1 then Wholes(inv[i + 1..j]) else [];
             && (forall p | p in mids :: ValidPiece(nodes, p) && p.start < p.end)
             && LeafText(nodes, mids) == whole[inv[i].addr.end..inv[j].addr.start]
    requires inv[i].addr.start <= a.start < inv[i].addr.end
    requires inv[j].addr.start < a.end <= inv[j].addr.end
    requires 0 <= a.start < a.end <= |whole|
    ensures var ps := Pieces(inv, a, i, j);
            && (forall p | p in ps :: ValidPiece(nodes, p) && p.start < p.end)
            && LeafText(nodes, ps) == whole[a.start..a.end]
  {
    var mids := if j > i + 1 then Wholes(inv[i + 1..j]) else [];
    PiecesAcross(inv, a, i, j);
    EndsJoin(nodes, whole, inv[i], inv[j], mids, a, Pieces(inv, a, i, j));
  }

  /** The head piece, the whole leaves between and the tail piece read the addressed characters. */
  lemma EndsJoin(nodes: Arena, whole: string, s: Entry, e: Entry, mids: seq<Address>, a: Address, ps: seq<Address>)
    requires Reads(nodes, whole, s) && Reads(nodes, whole, e)
    requires 0 <= s.addr.end <= e.addr.start <= |whole|
    requires forall p | p in mids :: ValidPiece(nodes, p) && p.start < p.end
    requires LeafText(nodes, mids) == whole[s.addr.end..e.addr.start]
    requires s.addr.start <= a.start < s.addr.end
    requires e.addr.start < a.end <= e.addr.end
    requires 0 <= a.start < a.end <= |whole|
    requires ps == [Address(s.node, a.start - s.addr.start, s.addr.end - s.addr.start)] + mids
                   + [Address(e.node, 0, a.end - e.addr.start)]
    ensures forall p | p in ps :: ValidPiece(nodes, p) && p.start < p.end
    ensures LeafText(nodes, ps) == whole[a.start..a.end]
  {
    var head := Address(s.node, a.start - s.addr.start, s.addr.end - s.addr.start);
    var tail := Address(e.node, 0, a.end - e.addr.start);
    EndsRead(nodes, whole, s, e, a);
    JoinPieces(nodes, whole, head, mids, tail, a.start, s.addr.end, e.addr.start, a.end);
  }

  /** The head piece reads from `start` to the end of its leaf, the tail piece from its leaf's start to `end`. */
  lemma EndsRead(nodes: Arena, whole: string, s: Entry, e: Entry, a: Address)
    requires Reads(nodes, whole, s) && Reads(nodes, whole, e)
    requires s.addr.start <= a.start < s.addr.end
    requires e.addr.start < a.end <= e.addr.end
    ensures var head := Address(s.node, a.start - s.addr.start, s.addr.end - s.addr.start);
            ValidPiece(nodes, head) && head.start < head.end
            && LeafText(nodes, [head]) == whole[a.start..s.addr.end]
    ensures var tail := Address(e.node, 0, a.end - e.addr.start);
            ValidPiece(nodes, tail) && tail.start < tail.end
            && LeafText(nodes, [tail]) == whole[e.addr.start..a.end]
  {
    PieceReads(nodes, whole, s, a.start, s.addr.end);
    PieceReads(nodes, whole, e, e.addr.start, a.end);
    assert Address(e.node, 0, a.end - e.addr.start) == Address(e.node, e.addr.start - e.addr.start, a.end - e.addr.start);
  }

  /** The whole leaves strictly between `i` and `j` read the text between them. */
  lemma MidsRead(nodes: Arena, whole: string, inv: seq<Entry>, i: nat, j: nat)
    requires StrictTiles(inv, 0, |whole|) && forall e | e in inv :: Reads(nodes, whole, e)
    requires i < j < |inv|
    ensures 0 <= inv[i].addr.end <= inv[j].addr.start <= |whole|
    ensures var mids := if j > i + 1 then Wholes(inv[i + 1..j]) else [];
            && (forall p | p in mids :: ValidPiece(nodes, p) && p.start < p.end)
            && LeafText(nodes, mids) == whole[inv[i].addr.end..inv[j].addr.start]
  {
    StrictOrder(inv, 0, |whole|, i, j);
    StrictBounds(inv, 0, |whole|, i);
    StrictBounds(inv, 0, |whole|, j);
    MiddleTiles(inv, 0, |whole|, i, j);
    forall x | x in inv[i + 1..j] ensures Reads(nodes, whole, x) {
      assert x in inv;
    }
    Stitch(nodes, whole, inv[i + 1..j], inv[i].addr.end, inv[j].addr.start);
  }

  lemma JoinPieces(nodes: Arena, whole: string, head: Address, mids: seq<Address>, tail: Address,
                   lo: int, m1: int, m2: int, hi: int)
    requires 0 <= lo <= m1 <= m2 <= hi <= |whole|
    requires ValidPiece(nodes, head) && ValidPiece(nodes, tail)
    requires head.start < head.end && tail.start < tail.end
    requires forall p | p in mids :: ValidPiece(nodes, p) && p.start < p.end
    requires LeafText(nodes, [head]) == whole[lo..m1]
    requires LeafText(nodes, mids) == whole[m1..m2]
    requires LeafText(nodes, [tail]) == whole[m2..hi]
    ensures forall p | p in [head] + mids + [tail] :: ValidPiece(nodes, p) && p.start < p.end
    ensures LeafText(nodes, [head] + mids + [tail]) == whole[lo..hi]
  {
    assert forall p | p in [head] + mids + [tail] :: p == head || p in mids || p == tail;
    LeafTextAppend(nodes, [head], mids);
    LeafTextAppend(nodes, [head] + mids, [tail]);
    SliceJoin(whole, lo, m1, m2);
    SliceJoin(whole, lo, m2, hi);
  }

  /** A caret on the boundary before leaf `k` is cut into leaf `k`, then leaf `k - 1`. */
  lemma CutCaret(inv: seq<Entry>, n: int, root: NodeId, k: nat)
    requires StrictTiles(inv, 0, n) && 0 < k < |inv| && inv[k - 1].node != inv[k].node
    ensures var b := inv[k].addr.start;
            Cut(inv, Address(root, b, b)) == Some([Whole(inv[k]), Whole(inv[k - 1])])
  {
    var b := inv[k].addr.start;
    assert inv[k - 1].addr.end == b;
    LocateAt(inv, n, Address(root, b, b), k, k - 1);
    CutAt(inv, Address(root, b, b), k, k - 1);
    PiecesAcross(inv, Address(root, b, b), k, k - 1);
    var head := Address(inv[k].node, b - inv[k].addr.start, inv[k].addr.end - inv[k].addr.start);
    var tail := Address(inv[k - 1].node, 0, b - inv[k - 1].addr.start);
    assert Pieces(inv, Address(root, b, b), k, k - 1) == [head] + [] + [tail];
    assert head == Whole(inv[k]) && tail == Whole(inv[k - 1]);
    assert [head] + [] + [tail] == [head, tail];
  }

  // ---------------------------------------------------------------------
  // What `toLeafs` promises.
  // ---------------------------------------------------------------------

  /**
    `toLeafs` throws exactly when the root is an element and either the
    root has no text at all or the address reaches outside `[0, length)`
    of the root's flattened text.  Text and void roots never throw.
  */
  lemma ToLeafsFails(nodes: Arena, height: Heights, a: Address)
    requires Ranked(nodes, height) && a.root in nodes
    ensures var n := |Content(nodes, height, a.root)|;
            ToLeafs(nodes, height, a).None?
            <==> nodes[a.root].kind == Element && (n == 0 || a.start < 0 || a.end > n)
  {
    if nodes[a.root].kind == Element {
      InverseTiles(nodes, height, a.root);
      CutFails(Inverse(nodes, height, a.root), |Content(nodes, height, a.root)|, a);
    }
  }

  /**
    For a nonempty range inside the root's text, `toLeafs` succeeds with
    pieces that are nonempty ranges of text nodes, and those pieces, read
    one after the other, give exactly the root's text between `start` and
    `end` (so their lengths add up to `end - start`).
  */
  lemma ToLeafsReads(nodes: Arena, height: Heights, a: Address)
    requires WellFormed(nodes, height) && a.root in nodes
    requires 0 <= a.start < a.end <= |Content(nodes, height, a.root)|
    ensures var r := ToLeafs(nodes, height, a);
            && r.Some?
            && (forall p | p in r.value :: ValidPiece(nodes, p) && p.start < p.end)
            && LeafText(nodes, r.value) == Content(nodes, height, a.root)[a.start..a.end]
  {
    match nodes[a.root].kind
    case Text =>
      assert LeafText(nodes, [a]) == nodes[a.root].text[a.start..a.end];
    case Void =>
      assert false;
    case Element =>
      var inv := Inverse(nodes, height, a.root);
      InverseTiles(nodes, height, a.root);
      forall k, l | 0 <= k < l < |inv| ensures inv[k].node != inv[l].node {
        InverseDistinct(nodes, height, a.root, k, l);
      }
      CutReads(nodes, Content(nodes, height, a.root), inv, a);
  }

  /**
    In tiled spans, `findLast` stops at the leaf whose span holds `start`,
    and `find` at the leaf whose span holds `end` as its inner or right edge.
  */
  lemma LocateAt(inv: seq<Entry>, n: int, a: Address, i: nat, j: nat)
    requires StrictTiles(inv, 0, n) && i < |inv| && j < |inv|
    requires inv[i].addr.start <= a.start < inv[i].addr.end
    requires inv[j].addr.start < a.end <= inv[j].addr.end
    ensures FindLast(inv, a.start) == Some(i) && Find(inv, a.end) == Some(j)
  {
    var f := FindLast(inv, a.start);
    if f.Some? && f.value > i {
      StrictOrder(inv, 0, n, i, f.value);
    }
    var g := Find(inv, a.end);
    if g.Some? && g.value < j {
      StrictOrder(inv, 0, n, g.value, j);
    }
  }

  /** On an element root, `toLeafs` is the cut along the inverse list. */
  lemma ToLeafsElement(nodes: Arena, height: Heights, a: Address)
    requires Ranked(nodes, height) && a.root in nodes && nodes[a.root].kind == Element
    ensures ToLeafs(nodes, height, a) == Cut(Inverse(nodes, height, a.root), a)
  {
  }

  /** The tiling half of `InverseTiles`. */
  lemma InverseStrict(nodes: Arena, height: Heights, root: NodeId)
    requires Ranked(nodes, height) && root in nodes
    ensures StrictTiles(Inverse(nodes, height, root), 0, |Content(nodes, height, root)|)
  {
    InverseTiles(nodes, height, root);
  }

  lemma CutOne(inv: seq<Entry>, n: int, a: Address, i: nat)
    requires StrictTiles(inv, 0, n) && i < |inv|
    requires inv[i].addr.start <= a.start < inv[i].addr.end
    requires inv[i].addr.start < a.end <= inv[i].addr.end
    ensures Cut(inv, a) == Some([Address(inv[i].node, a.start - inv[i].addr.start, a.end - inv[i].addr.start)])
  {
    LocateAt(inv, n, a, i, i);
    CutAt(inv, a, i, i);
    PiecesWithin(inv, a, i);
  }

  lemma CutMany(inv: seq<Entry>, n: int, a: Address, i: nat, j: nat)
    requires StrictTiles(inv, 0, n) && i < j < |inv| && inv[i].node != inv[j].node
    requires inv[i].addr.start <= a.start < inv[i].addr.end
    requires inv[j].addr.start < a.end <= inv[j].addr.end
    ensures Cut(inv, a)
         == Some([Address(inv[i].node, a.start - inv[i].addr.start, inv[i].addr.end - inv[i].addr.start)]
                 + Wholes(inv[i + 1..j])
                 + [Address(inv[j].node, 0, a.end - inv[j].addr.start)])
  {
    LocateAt(inv, n, a, i, j);
    CutAt(inv, a, i, j);
    PiecesAcross(inv, a, i, j);
    if j == i + 1 {
      assert Wholes(inv[i + 1..j]) == [];
    }
  }

  /**
    `toLeafs` on an element, for a range that starts and ends inside the
    span of one leaf `inv[i]`, is that one leaf with the range's local
    offsets.
  */
  lemma ToLeafsWithin(nodes: Arena, height: Heights, a: Address, inv: seq<Entry>, i: nat)
    requires WellFormed(nodes, height) && a.root in nodes && nodes[a.root].kind == Element
    requires inv == Inverse(nodes, height, a.root) && i < |inv|
    requires inv[i].addr.start <= a.start < inv[i].addr.end
    requires inv[i].addr.start < a.end <= inv[i].addr.end
    ensures ToLeafs(nodes, height, a) == Some([Address(inv[i].node, a.start - inv[i].addr.start, a.end - inv[i].addr.start)])
  {
    InverseStrict(nodes, height, a.root);
    CutOne(inv, |Content(nodes, height, a.root)|, a, i);
    ToLeafsElement(nodes, height, a);
  }

  /**
    `toLeafs` on an element, for a range that starts in the span of leaf
    `inv[i]` and ends in that of a later leaf `inv[j]`: the rest of leaf
    `i` from the start, every leaf strictly between whole, and leaf `j` up
    to the end.
  */
  lemma ToLeafsAcross(nodes: Arena, height: Heights, a: Address, inv: seq<Entry>, i: nat, j: nat)
    requires WellFormed(nodes, height) && a.root in nodes && nodes[a.root].kind == Element
    requires inv == Inverse(nodes, height, a.root) && i < j < |inv|
    requires inv[i].addr.start <= a.start < inv[i].addr.end
    requires inv[j].addr.start < a.end <= inv[j].addr.end
    ensures ToLeafs(nodes, height, a)
         == Some([Address(inv[i].node, a.start - inv[i].addr.start, inv[i].addr.end - inv[i].addr.start)]
                 + Wholes(inv[i + 1..j])
                 + [Address(inv[j].node, 0, a.end - inv[j].addr.start)])
  {
    InverseStrict(nodes, height, a.root);
    InverseDistinct(nodes, height, a.root, i, j);
    CutMany(inv, |Content(nodes, height, a.root)|, a, i, j);
    ToLeafsElement(nodes, height, a);
  }

  /**
    A caret (an empty address) placed exactly where one nonempty leaf ends
    and the next begins resolves to the whole next leaf followed by the
    whole previous leaf: `findLast` picks the leaf starting at the caret
    and `find` the leaf ending there.
  */
  lemma CaretAtBoundary(nodes: Arena, height: Heights, root: NodeId, k: nat)
    requires WellFormed(nodes, height) && root in nodes && nodes[root].kind == Element
    requires 0 < k < |Inverse(nodes, height, root)|
    ensures var inv := Inverse(nodes, height, root);
            var b := inv[k].addr.start;
            ToLeafs(nodes, height, Address(root, b, b)) == Some([Whole(inv[k]), Whole(inv[k - 1])])
  {
    var inv := Inverse(nodes, height, root);
    InverseTiles(nodes, height, root);
    InverseDistinct(nodes, height, root, k - 1, k);
    CutCaret(inv, |Content(nodes, height, root)|, root, k);
  }

  // ---------------------------------------------------------------------
  // The pieces name distinct, attached text nodes.
  // ---------------------------------------------------------------------

  /** Every entry of the inverse list is a text node below the root, hence attached. */
  lemma InverseAttached(nodes: Arena, height: Heights, root: NodeId)
    requires WellFormed(nodes, height) && root in nodes && nodes[root].kind == Element
    ensures forall e | e in Inverse(nodes, height, root) ::
              IsLeaf(nodes, e.node) && nodes[e.node].parent.Some?
  {
    var es := NodeMap(nodes, height, root).entries;
    NonEmptyMembers(TextEntries(nodes, es));
    TextEntriesMembers(nodes, es);
    EntriesCover(nodes, height, root, root, 0);
    forall e | e in Inverse(nodes, height, root) ensures IsLeaf(nodes, e.node) && nodes[e.node].parent.Some? {
      assert e.node in EntryNodes(es);
      ParentInSubtree(nodes, height, root, e.node);
    }
  }

  /**
    The pieces of a cut are entries of the inverse list, taken at
    increasing positions: the head, the middles and the tail.
  */
  lemma PiecesRoots(inv: seq<Entry>, a: Address, i: nat, j: nat)
    requires i < |inv| && j < |inv|
    requires forall k, l | 0 <= k < l < |inv| :: inv[k].node != inv[l].node
    ensures var ps := Pieces(inv, a, i, j);
            && (forall p | p in ps :: exists k | 0 <= k < |inv| :: p.root == inv[k].node)
            && (forall k, l | 0 <= k < l < |ps| :: ps[k].root != ps[l].root)
  {
    var ps := Pieces(inv, a, i, j);
    if inv[i].node != inv[j].node && j > i + 1 {
      assert |ps| == j - i + 1;
      assert forall m | 0 <= m < |ps| :: ps[m].root == inv[i + m].node;
    }
  }

  /** The same for the whole cut: its pieces are entries of the inverse list, none twice. */
  lemma CutRoots(inv: seq<Entry>, a: Address)
    requires Cut(inv, a).Some?
    requires forall k, l | 0 <= k < l < |inv| :: inv[k].node != inv[l].node
    ensures var ps := Cut(inv, a).value;
            && (forall p | p in ps :: exists k | 0 <= k < |inv| :: p.root == inv[k].node)
            && (forall k, l | 0 <= k < l < |ps| :: ps[k].root != ps[l].root)
  {
    var i := FindLast(inv, a.start).value;
    var j := Find(inv, a.end).value;
    assert Cut(inv, a).value == Pieces(inv, a, i, j);
    PiecesRoots(inv, a, i, j);
  }

  /**
    The pieces of an element's range name text nodes that have a parent,
    and no text node twice: cutting one piece's node leaves the others'
    characters alone.
  */
  lemma ToLeafsPieces(nodes: Arena, height: Heights, a: Address)
    requires WellFormed(nodes, height) && a.root in nodes && nodes[a.root].kind == Element
    requires ToLeafs(nodes, height, a).Some?
    ensures var ps := ToLeafs(nodes, height, a).value;
            && (forall p | p in ps :: IsLeaf(nodes, p.root) && nodes[p.root].parent.Some?)
            && (forall k, l | 0 <= k < l < |ps| :: ps[k].root != ps[l].root)
  {
    var inv := Inverse(nodes, height, a.root);
    var ps := ToLeafs(nodes, height, a).value;
    assert ps == Cut(inv, a).value;
    InverseAttached(nodes, height, a.root);
    forall k, l | 0 <= k < l < |inv| ensures inv[k].node != inv[l].node {
      InverseDistinct(nodes, height, a.root, k, l);
    }
    CutRoots(inv, a);
    forall p | p in ps ensures IsLeaf(nodes, p.root) && nodes[p.root].parent.Some? {
      var k :| 0 <= k < |inv| && p.root == inv[k].node;
      assert inv[k] in inv;
    }
  }
}
