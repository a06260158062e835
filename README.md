# jerry: character-offset addressing and highlighting over a document tree

This project models the core of `jerry`, a browser library for text highlighting, in Dafny.
jerry gives every node below a root a span `[start, end)` of character offsets within the root's
flattened text (the characters of its text nodes, in document order). The `Address` class uses
these spans to do three things:
- cut a range into pieces that each lie inside one text node;
- split text nodes so that a piece becomes a whole text node (an "atom");
- toggle a highlight wrapper (an element carrying a class name) around an atom.

The `Jerry` controller does the rest. It caches the text-node spans of one node, turns a browser
selection into flat offsets, and looks up the spans of the elements that carry a highlight class.

The model has six modules.

- `Tree` (`tree.dfy`) is the host document: an arena `map<NodeId, Node>`.
  - A node is a text node, an element or a void node (a non-text node with no child list).
  - Each node has its characters, its children, its parent and its class set.
  - `WellFormed` says that the child lists and the parent links describe one forest.
  - `Content` is the flattened text of a subtree.
  - A ghost ranking `height` proves that the walks terminate.
- `Indexer` (`indexer.dfy`) is `getNodeMap`, `getLeafMap` and `isLeaf`.
  - The host's insertion-ordered `Map` is the ordered list of its entries.
  - `ToMap` gives its lookup, where a later key wins.
- `Addresses` (`addresses.dfy`) is `Address.toLeafs`.
  - It is the pure cut of a range into per-text-node pieces.
  - The lodash helpers it uses (`filter`, `sortBy`, `findLast`, `find`) are written as sequence functions.
- `Surgery` (`surgery.dfy`) covers the tree edits the host performs, each a function from arena to arena:
  - `splitText` and `previousSibling`;
  - the three cases of `wrap` on a text node;
  - `Toggle`, which chooses between the three cases and returns the exception the host would raise.
- `Highlight` (`document.dfy`) holds the class `Document`, the live tree that `toAtom`, `toAtoms` and `wrap` change in place.
  - Its methods assign the arena field, and their contracts tie the new arena to the functions of `Surgery`.
  - `next` is the handle of the next node the host creates.
- `Controller` (`jerry.dfy`) holds the class `Jerry`, with the mutable fields `span` and `leafMap` (the source's `map`) that `Refresh` reassigns.

The main results:
- The node map has one entry per node of the subtree. Every entry is scoped to the root, and each span reads exactly that node's flattened text.
- A container's children are laid out left to right.
- `toLeafs` fails exactly when the source's destructuring of `undefined` would throw. Otherwise its pieces read exactly the characters of the range.
- `toAtoms` yields whole, attached text nodes that read exactly the range's characters: one distinct node per piece, each under the parent of its piece's node.
- Every `wrap` case keeps the forest well-formed.
- `wrap` changes the flattened text of no element that lacks the class.
- `wrap` on an element runs `wrap` on each atom in turn. For a nonempty range whose pieces' parents lack the class, that run throws nothing, and each atom ends up the only child of its own new element carrying the class, placed under its piece's old parent.
- Wrapping a bare text node and wrapping it again restores the original tree.
- Splitting a shared wrapper puts the node and a new wrapper for its following siblings right behind the old wrapper.
- The controller's cache describes the tree exactly.
- A selection endpoint's flat offset points at the same character as its local offset.
- `gatherHighlights` finds exactly the marked nodes, and each span it returns reads that node's text.

Three behaviours of `src/index.ts` are modelled as written:
- `getSelection` (src/index.ts:159-168) neither clamps the offsets nor records which way the selection runs.
- `gatherHighlights` (src/index.ts:170-177) returns one span per marked node and does not merge adjacent spans; line 173 leaves that as a TODO.
- `wrap` on a shared wrapper that has no parent (src/index.ts:106-116) detaches the node before it throws, so the tree is left changed.

## Model

| member | source | states |
|---|---|---|
| Indexer.NodeMapAt | src/index.ts:3-34 | the span of an indexed node runs from `offset` to `offset` plus the length of its flattened text, and the node's own entry comes after all of its descendants' entries |
| Indexer.LeafAndVoidSpans | src/index.ts:5-16 | a text node is indexed as `[offset, offset + length)`, a childless node as the empty span at `offset`, and its map holds that one entry only |
| Indexer.ScanChildren | src/index.ts:18-24 | the scan over the children ends at `offset` plus the length of the children's flattened text |
| Indexer.ChildSpan | src/index.ts:18-26 | child `i` is indexed from the end of children `0..i` to the end of children `0..i+1`: the children lie contiguously, left to right |
| Indexer.ContainerLayout | src/index.ts:18-33 | in the map of a container, the container spans all its children's text and child `i` starts where child `i-1` ended |
| Indexer.EntriesCover | src/index.ts:3-34 | the nodes with an entry are exactly the nodes of the walked subtree |
| Indexer.EntriesDistinct | src/index.ts:3-34 | no node has two entries, so building the map loses nothing |
| Indexer.ToMapAt | src/index.ts:31-33 | in a list of entries with distinct nodes, the map gives each node the span of its own entry |
| Indexer.NodeMapExact | src/index.ts:3-34 | `getNodeMap(root)` has a key for exactly the nodes below `root`, every span is scoped to `root` and lies within `[0, length of root's text]`, and each span reads exactly its node's flattened text |
| Indexer.LayoutDeterminesSpans | src/index.ts:3-34 | indexing is deterministic: two trees with the same kinds, texts and child lists get identical spans |
| Indexer.TextEntriesMembers | src/index.ts:38 | the leaf filter keeps exactly the text-node entries |
| Indexer.LeafMapExact | src/index.ts:36-39 | `getLeafMap` has the same span as `getNodeMap`, a key for exactly the text nodes of the subtree, and their spans unchanged |
| Indexer.TextTiles | src/index.ts:3-39 | the text-node spans tile `[offset, offset + length)` without gap or overlap, in document order |
| Addresses.NonEmptyMembers | src/index.ts:61-62 | the zero-width filter keeps exactly the entries with `start != end` |
| Addresses.InverseTiles | src/index.ts:60-62 | the nonempty text-node spans tile `[0, length of the flattened text)`, and each one reads its node's characters |
| Addresses.InverseSorted | src/index.ts:62 | the filtered list is already strictly sorted by start, so the stable `sortBy` leaves it as it is |
| Addresses.InverseDistinct | src/index.ts:60-62 | no text node occurs twice in the filtered list |
| Addresses.FindLast | src/index.ts:64 | `_.findLast` gives the last index whose span starts at or before the point, and every later span starts after it |
| Addresses.Find | src/index.ts:67 | `_.find` gives the first index whose span ends at or after the point, and every earlier span ends before it |
| Addresses.Locate | src/index.ts:64-69 | for `0 <= start < end <= length`, the start leaf contains `start` and the end leaf contains `end`, in that order |
| Addresses.LocateAt | src/index.ts:64-69 | in tiled spans, `_.findLast` stops at the leaf whose span holds the start, and `_.find` at the leaf whose span holds the end as an inner point or its right edge |
| Addresses.ToLeafsWithin | src/index.ts:57-72 | `toLeafs` on an element, for a range that starts and ends inside one leaf's span, is that one leaf with the range's offsets made local |
| Addresses.ToLeafsAcross | src/index.ts:57-82 | `toLeafs` on an element, for a range that starts in leaf `i` and ends in a later leaf `j`, is the rest of leaf `i` from the start, every leaf strictly between whole, and leaf `j` up to the end |
| Addresses.CutFails | src/index.ts:63-69 | the element case throws exactly when the text is empty or the range leaves `[0, length]` |
| Addresses.ToLeafsFails | src/index.ts:57-69 | `toLeafs` throws only for an element root whose text is empty or whose range leaves the text, and never for a text or void root |
| Addresses.CutReads | src/index.ts:63-82 | for a nonempty range within the text, the pieces are nonempty, lie within their leaves and read exactly the range's characters in order |
| Addresses.ToLeafsReads | src/index.ts:57-82 | `toLeafs` on an element root, for a nonempty range within its text, yields nonempty valid pieces whose characters, read in order, are exactly the addressed characters |
| Addresses.CaretAtBoundary | src/index.ts:64-82 | an empty range on the boundary between two leaves yields the whole next leaf and then the whole previous leaf |
| Addresses.ToLeafsPieces | src/index.ts:57-82 | the pieces of an element root lie in distinct attached text nodes |
| Surgery.IndexOf | src/index.ts:108 | `indexOf` gives the first position that holds the node |
| Surgery.SplitContent | src/index.ts:90-91 | `splitText` divides the characters between the node and the new node and keeps the forest well-formed, and no other node's flattened text changes |
| Surgery.SplitRetains | src/index.ts:90-91 | `splitText` keeps every node's kind, classes and parent, changes only the split node's characters, and puts the rest into a new text node |
| Surgery.SplitSibling | src/index.ts:90-92 | the new text node shares the split node's parent, and its previous sibling is the split node |
| Surgery.PreviousSibling | src/index.ts:92 | `previousSibling` is null exactly for a detached node or a first child; otherwise it is the child listed just before the node's first place in its parent's child list |
| Surgery.UnwrapWellFormed | src/index.ts:104-105 | putting the only child in the wrapper's place keeps the forest well-formed |
| Surgery.UnwrapContent | src/index.ts:104-105 | after unwrapping, the detached wrapper is empty and every other node keeps its flattened text |
| Surgery.WrapNewPlaces | src/index.ts:129-134 | the new wrapper, carrying only the class, takes the node's position among the same siblings and holds the node as its only child |
| Surgery.WrapNewWellFormed | src/index.ts:129-134 | creating a wrapper keeps the forest well-formed |
| Surgery.WrapNewContent | src/index.ts:129-134 | the new wrapper reads as the node it wraps, and no node's flattened text changes |
| Surgery.WrapThenUnwrap | src/index.ts:104-105 | unwrapping a newly wrapped node gives back the original arena, apart from the detached, empty wrapper |
| Surgery.SplitOutPlaces | src/index.ts:106-128 | the siblings before the node stay in the wrapper; the node follows the wrapper in the grandparent; the siblings after it move, in order, into a new wrapper with the class right behind the node; the grandparent's other children keep their places |
| Surgery.SplitOutWellFormed | src/index.ts:106-128 | splitting a shared wrapper keeps the forest well-formed |
| Surgery.SplitOutContent | src/index.ts:106-128 | splitting a shared wrapper changes no flattened text except the old wrapper's, which now reads its remaining siblings |
| Surgery.SplitOutFirstChild | src/index.ts:109-111 | when the node is the wrapper's first child, the old wrapper stays in the grandparent with no children |
| Surgery.DetachContent | src/index.ts:106-116 | a shared wrapper with no parent is left with the siblings before the node, and the node and the following siblings are detached, before the exception |
| Surgery.Toggle | src/index.ts:101-135 | `wrap` on a text node succeeds only when the node has a parent, and creates at most the one new node |
| Surgery.ToggleTokens | src/index.ts:101-135 | every case keeps each node's kind, classes and characters, and every class list stays made of valid tokens |
| Surgery.ToggleKeeps | src/index.ts:101-135 | every case keeps the forest well-formed, and no node other than an element carrying the class changes its flattened text |
| Surgery.ToggleTwice | src/index.ts:104-134 | toggling a bare text node wraps it, and toggling it again restores the original arena, apart from the detached, empty wrapper |
| Highlight.Document.SplitText | src/index.ts:90-91 | `splitText` with an offset outside the text throws and changes nothing; otherwise the node keeps the characters before the offset and a fresh node right after it takes the rest, and no other node changes its text or flattened text |
| Highlight.Document.ToAtom | src/index.ts:85-93 | null for a non-text root; the address itself, with nothing changed, when it covers its node; an exception for offsets outside the text; otherwise a whole attached text node holding exactly the addressed characters, which is the root itself or a new node under the root's parent, or a null root for a detached node |
| Highlight.Document.AtomsOf | src/index.ts:96 | making pieces that lie in distinct attached text nodes into atoms yields one atom per piece, on distinct whole attached text nodes, each under the parent its piece's node had, and together they read exactly what the pieces read |
| Highlight.Document.ToAtoms | src/index.ts:95-97 | `toAtoms` fails as `toLeafs` does and gives nothing for a void root; on a text root it is that root's one `toAtom`: `IndexSizeError` for offsets outside the text, the address itself when it covers the node, a null-rooted address for a detached node, and otherwise one whole attached node holding the addressed characters; for a nonempty range within an element's text it gives one atom per piece, on distinct whole attached text nodes under their pieces' parents, whose characters, in order, are exactly the range's characters; no non-text node changes its flattened text |
| Highlight.Document.AtomOfText | src/index.ts:57-97 | on a text root, whose only piece is itself, `toAtoms` throws what `toAtom` throws, gives the address itself when it covers the node, a null-rooted address for a detached node, and otherwise one whole attached node, under the root's parent, holding the addressed characters |
| Highlight.Document.WrapText | src/index.ts:101-135 | `wrap` on a text node performs `Toggle` on the live document and keeps it valid |
| Highlight.Document.WrapFirst | src/index.ts:101-135 | `wrap` on one atom's root throws `TypeError` for null and is the text-node branch otherwise; the run over all the roots is this step, then the run over the rest |
| Highlight.Document.WrapAll | src/index.ts:101 | the atoms' roots are wrapped one after another, stopping at the first exception; the arena and the exception are those of the fold `ToggleAll` |
| Highlight.ToggleAllCons | src/index.ts:101 | after the first `wrap` of a run the forest is still well-formed, class lists are still valid tokens, every handle is below the next one, and the remaining roots are still text nodes or null, so the run can go on from there |
| Highlight.WrappedStep | src/index.ts:129-134 | wrapping the next root whose parent lacks the class creates its wrapper, keeps the roots before it wrapped, and leaves the roots after it text nodes under the same parents, which still lack the class |
| Highlight.BaldRun | src/index.ts:101-134 | on distinct attached text nodes whose parents lack the class, with a valid class name, the run throws nothing and leaves each root the only child of a new element with exactly that class, inside the root's old parent |
| Highlight.WrapElementBald | src/index.ts:95-134 | for a nonempty range within an element's text whose pieces' parents lack a valid class name, the run over the atoms throws nothing, there is one atom per piece, and each atom is the only child of a new element with exactly that class, inside the parent its piece's node had |
| Highlight.Document.Wrap | src/index.ts:99-136 | a null root throws; a text root is toggled; on an element, `toAtoms` runs first and its exception is passed on; otherwise the arena and the exception are those of `ToggleAll` over the atoms' roots; an element whose range cannot be cut throws with nothing changed; no element lacking the class changes its flattened text |
| Controller.MarkedExact | src/index.ts:171 | the class query finds exactly the non-text nodes of the page carrying the class |
| Controller.LeafMapDescribes | src/index.ts:149-152 | the leaf map covers the node's text and holds exactly its text nodes, each with the span that reads its characters |
| Controller.LookupLocated | src/index.ts:172-176 | looking up nodes in the node map gives a span exactly for the nodes below the indexed node, and each span reads that node's flattened text |
| Controller.Jerry.Refresh | src/index.ts:149-153 | `refresh` caches the leaf map of the node, and the cache then describes the tree exactly |
| Controller.Jerry.GetNodeAddress | src/index.ts:155-157 | a cached span exists exactly for the text nodes below the indexed node, and it starts where that node's characters start in the flattened text |
| Controller.Jerry.GetSelection | src/index.ts:159-168 | no selection gives null; a selection without ranges throws `IndexSizeError`; otherwise both flat offsets point at the same characters as the local offsets in their text nodes |
| Controller.Jerry.GatherHighlights | src/index.ts:170-177 | for each marked node of the page, in document order, its span in the indexed node, or none when it lies outside; spans are not merged |

## Left out

- `webpack.common.js` is build configuration and is not part of this model.
- The browser is replaced by the arena. Tag names are not modelled, and the element `wrap` creates is an element with one class.
  - `document.querySelectorAll` becomes the pre-order walk `Marked` from a `page` node that the caller passes in.
  - `window.getSelection` becomes a value the caller passes in.
  - The `window.Jerry` export is not modelled.
- CSS selector syntax is not modelled: the class name is matched as a plain token, without selector escaping.
- Controller.Jerry.GetSelection: requires both endpoints to be text nodes in the cache, because for other containers the source computes `NaN`.
- Highlight.Document.SplitText: an offset beyond what WebIDL's unsigned conversion accepts is treated like any offset outside the text (`IndexSizeError`). The wrap-around of negative numbers is not modelled.
- Surgery.SplitOut: the two `forEach` loops that remove and re-append the following siblings are modelled by their combined effect on the arena, not one call at a time.
- Highlight.Document.WrapText: `next` also advances when no node is created. When `classList.add` throws, the host has already created an element, which then stays unreachable; the model creates none.
- Controller.Jerry.GetNodeAddress: what a stale cache returns after the tree was edited is not described. The contracts speak only of a cache that `Refresh` has just built.
- The `sortBy` in `toLeafs` is not written out, because `InverseSorted` shows the list is already sorted.
- The host's object identity and garbage collection are not modelled. A detached node stays in the arena.
- `null` is the handle `Null`, which is never a node of the document.
- Lengths and offsets count characters of a `seq<char>`. The host counts UTF-16 code units in `length` (src/index.ts:6), in `splitText` (src/index.ts:90-91) and in the selection's offsets (src/index.ts:163-166). A character outside the Basic Multilingual Plane therefore counts once here and twice in the host. Every offset after such a character differs, and a `splitText` inside a surrogate pair cannot be expressed.
- Default arguments are not modelled. The class name of `wrap` and `gatherHighlights` (`'highlight'`, src/index.ts:99 and 170) and the node of the `Jerry` constructor (`document.body`, src/index.ts:144) are always passed by the caller.
- Numbers are unbounded integers. JavaScript's double-precision numbers agree with them for every offset a document can hold.
