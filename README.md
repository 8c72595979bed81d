# minimum_heap in Dafny

A model of the Ruby library `minimum_heap`.

- **Heaps.** `Heaps::HeapBase` is a minimum or maximum heap whose comparator is fixed at construction. `Heaps::MinimumHeap` is the older draft that inserts by scanning a row. Both are built from linked `Heaps::Node` objects and the `Heaps::EmptyNode` sentinel.
- **Lists.** The cursor-based `LinkedList`, `DoublyLinkedList` and `CircularLinkedList` are built over `LinkNode`.
- **Search tree.** `BinaryTree::Node` is an unbalanced binary search tree.

Everything the Ruby code does in place is modelled in place:

- Each heap and each list is a `class` whose fields are the Ruby instance variables (`root`, `size`, `last_node`; `head`, `tail`, `current`, `size`).
- Its nodes live in an arena object (`NodeStores.NodeStore`, `LinkNodes.LinkArena`). This object holds a `map` from node identities to node records, and a method that assigns a node's field replaces that node's record.
- A link is `nil`, Ruby `false` (what an EmptyNode answers for `left`/`right`/`parent`), an EmptyNode, or a node of the arena.
- Ruby's exceptions (`NoMethodError`, `ArgumentError`) are an explicit `Raised` outcome. The model shows where the code raises instead of excluding those inputs.
- Each method is proved against a specification function of the old state: `Removal`, `Sifted`, `Repaired`, `Inserting`, `Removing`, `MergeSorted`, `Pushed`. The properties of those functions are proved as lemmas.
- A heap's tree is tied to its arena by a ghost map `at` from level-order slots (1 at the root, children 2k and 2k+1) to node identities. `Positioned` says the links agree with that map.

The class methods follow the source as written, including its mistakes. Where verifying a natural contract showed that the code does not do what it evidently means to do, two things stand side by side (see "## Findings"):

- a lemma exhibits the input on which the code goes wrong;
- a corrected definition (named `Mended…`, or `HeapOrders.Reheaped` for remove) carries the intended property.

Modules, one per file:

| file | module | models |
|---|---|---|
| wrappers.dfy | Wrappers | Option and the Outcome of a call that may raise |
| bags.dfy | Bags | multisets of the values of a map (helpers) |
| heap_slots.dfy | HeapSlots | level-order slot arithmetic: insert_positions, paths, row steps |
| heap_nodes.dfy | HeapNodes | Heaps::Node and EmptyNode as values: comparisons, messages, pre-order, include?, inspect, swap, clean, attach |
| node_store.dfy | NodeStores | the in-place Node methods over a store of nodes, move_down |
| sift_up.dfy | SiftUps | maintain_heap_property and balance_subtree of both heaps |
| heap_roots.dfy | HeapRoots | remove, and the messages both heaps send to their root |
| drawings.dfy | Drawings | the text inspect writes, and reading it back |
| heap_base.dfy | HeapBases | Heaps::HeapBase |
| minimum_heap.dfy | MinimumHeaps | Heaps::MinimumHeap |
| heap_order.dfy | HeapOrders | heap order: what a heap needs after a removal or a push, and where the code falls short of it |
| heap_sorted.dfy | HeapSorts | the minimum heap's removals keep a sorted heap sorted |
| link_node.dfy | LinkNodes | LinkNode and its arena |
| linked_commons.dfy | LinkedCommons | LinkedCommons: navigation, to_a, clear, find_by_value, merge sort |
| linked_list.dfy | LinkedLists | LinkedList |
| doubly_linked_list.dfy | DoublyLinkedLists | DoublyLinkedList |
| circular_linked_list.dfy | CircularLinkedLists | CircularLinkedList |
| binary_tree.dfy | BinaryTrees | BinaryTree::Node and EmptyNode |

Where the code and its own tests or comments disagree, the model follows the code. Examples:

- `merge`/`union!` of HeapBase build a minimum heap whatever the operands are: `new(combined)` passes no type.
- `include?` of an absent record raises, via `false&.valid?`.
- `clear!` on an EmptyNode root raises.
- MinimumHeap's `to_a` raises on a Node root, since Node has no `to_a`.
- HeapBase's `to_a` raises on an EmptyNode root, since EmptyNode has no `dfs_pre_order` (its tests expect `[]`). So `merge`, `merge!` and `union!` with an empty heap raise.
- `move_down` and `balance_subtree` compare with the ascending `Node#>`, whatever the heap's direction.
- HeapBase's sift-up calls `eval_node.compare(node)`, which Node does not define. It is modelled as the comparator injected at heap_base.rb:69-73 applied to the two values: true when the pair is out of order.

## Model

| member | source | states |
|---|---|---|
| HeapSlots.Log2FloorUnique | lib/heaps/heap_base.rb:232-239 | the integer floor-log2 that replaces `Math.log2(pos).floor` is the only r with 2^r <= n < 2^(r+1) |
| HeapSlots.SlotPositions | lib/heaps/heap_base.rb:232-239 | insert_positions for pos >= 1: row_max = 2^row <= pos < 2 row_max, capacity = 2 row_max - 1, row_max <= pos <= capacity, 1 <= column <= row_max and pos = row_max + column - 1 |
| HeapSlots.InsertPositions | lib/heaps/heap_base.rb:232-239 | positions below 1 are clamped to slot 1 (row 0, column 1); otherwise the bounds of SlotPositions |
| HeapSlots.SlotPositionsInverse | lib/heaps/heap_base.rb:232-239 | row and column name each slot exactly once: a slot has (row, column) exactly when it is the slot at that row and column |
| HeapSlots.PathTo | lib/heaps/heap_base.rb:254-279 | the path to slot n has floor-log2 n turns |
| HeapSlots.FollowPathTo | lib/heaps/heap_base.rb:254-279 | following the path to n from the root arrives at n |
| HeapSlots.PathToFollow | lib/heaps/heap_base.rb:254-279 | every path is the path to the slot it reaches, so slots and paths correspond one to one |
| HeapSlots.ParentPath | lib/heaps/heap_base.rb:254-279 | the path to the parent of n is the path to n without its deepest turn (insert mode) |
| HeapSlots.NavigationTurns | lib/heaps/heap_base.rb:254-279 | node_path_navigation's loop: no turns for n <= 1, the path to n, or to n's parent in insert mode |
| HeapSlots.NavigationStep | lib/heaps/heap_base.rb:261-270 | one round of that loop: the column's parity gives the turn (right for an even column), halving row_max and ceiling-halving the column give the parent's row and column |
| HeapSlots.ScaleRow | lib/heaps.rb:300-308 | descending c rows along left children from slot x lands exactly c rows lower, never left of x |
| HeapSlots.ClimbTop | lib/heaps.rb:300-308 | row_wise_insert's climb while on a right child stops at the root or at a left child |
| HeapSlots.RowStep | lib/heaps.rb:295-314 | climbing, crossing to the right sibling and descending as many rows as were climbed reaches exactly slot q + 1; the climb stops below the root exactly when q + 1 is in q's row |
| HeapNodes.FreshNode | lib/heaps/node.rb:10-17 | Node.new holds the record, and its three links hold an EmptyNode |
| HeapNodes.Spaceship | lib/heaps/node.rb:138-148 | `<=>` raises exactly when a value is nil: NoMethodError for a nil left value, ArgumentError for a nil right one; otherwise -1, 0 or 1 as the values compare |
| HeapNodes.Greater | lib/heaps/node.rb:159-161 | `>` raises exactly when `<=>` does, else answers whether the first value is greater |
| HeapNodes.Less | lib/heaps/node.rb:155-157 | `<` raises exactly when `<=>` does, else answers whether the first value is smaller |
| HeapNodes.SpaceshipReflexive | lib/heaps/node.rb:138-161 | a node with a value compares 0 to itself and is neither `<` nor `>` itself |
| HeapNodes.SpaceshipAntisymmetric | lib/heaps/node.rb:138-161 | swapping operands negates `<=>`, and `a > b` is `b < a` |
| HeapNodes.ValidOf | lib/heaps/node.rb:19-21 | `valid?` on a link: nil and false raise NoMethodError, an EmptyNode answers false, a Node answers whether its value is set |
| HeapNodes.Send | lib/heaps/empty_node.rb:16-22 | `left`/`right` on a link: a Node answers its field, an EmptyNode answers false, nil and false raise |
| HeapNodes.ParentOf | lib/heaps/empty_node.rb:24-26 | `parent` on a link: a Node answers its field, an EmptyNode answers false, nil and false raise |
| HeapNodes.SentinelMessages | lib/heaps/empty_node.rb:16-45 | an EmptyNode is not valid, answers false to left/right/parent, and equals no record (include? is false) |
| HeapNodes.PreOrderCovers | lib/heaps/node.rb:72-83 | pre-order lists every slot of a subtree exactly once |
| HeapNodes.CollectedIsPreOrder | lib/heaps/node.rb:72-83 | when every node below is valid, dfs_pre_order collects the records in pre-order: self, left subtree, right subtree |
| HeapNodes.CollectedContents | lib/heaps/node.rb:72-83 | dfs_pre_order from the root lists each record of the tree once: its multiset is the tree's and its length the number of nodes |
| HeapNodes.SearchIsFirstInPreOrder | lib/heaps/node.rb:63-67 | include? answers the first node in pre-order whose contents equal the argument, false when there is none |
| HeapNodes.NatTextRoundTrip | lib/heaps/node.rb:41-43 | the decimal text interpolation writes for an Integer reads back as that Integer |
| HeapNodes.InspectBraces | lib/heaps/node.rb:41-43 | inspect writes 2n + 1 pairs of braces for a subtree of n nodes: one per node and one `{}` per free child slot |
| HeapNodes.Swapped | lib/heaps/node.rb:106-111 | swap_contents exchanges description and value of the two nodes; no link and no other node changes |
| HeapNodes.SwappedTwice | lib/heaps/node.rb:106-111 | swapping twice restores both nodes |
| HeapNodes.SwappedSlots | lib/heaps/node.rb:106-111 | swapping the records of two slots keeps the tree, exchanges the two slots' records and keeps the multiset of records |
| HeapNodes.Detached | lib/heaps/node.rb:113-132 | the parent after clean: each link whose node `==` the cleaned one (content equality) becomes an EmptyNode, nothing else changes |
| HeapNodes.Cleaned | lib/heaps/node.rb:113-132 | clean without children turns the node's fields all nil and keeps the store's identities |
| HeapNodes.CleanedLeaf | lib/heaps/node.rb:113-132 | cleaning a leaf of a tree of valid nodes removes exactly that slot from the tree and its record from the multiset; only the leaf and its parent change |
| HeapNodes.Attached | lib/heaps/node.rb:169-179 | insert_left/insert_right change only the parent and the child, and no record |
| HeapNodes.AttachedPositioned | lib/heaps/node.rb:169-179 | attaching a fresh node at a free child slot gives a tree with that slot added |
| HeapNodes.AttachedContents | lib/heaps/node.rb:169-179 | the attached tree's multiset gains the new node's record |
| HeapNodes.RightmostLeaf | lib/heaps/node.rb:88-104 | move_down's answer is a leaf of the subtree, found by preferring right children |
| HeapNodes.RightmostLeafOfFour | lib/heaps/node.rb:88-104 | that leaf is not the last level-order slot: with four nodes it is slot 3 |
| NodeStores.NodeStore.constructor | lib/heaps/node.rb:10-17 | a store holding no node |
| NodeStores.NodeStore.NewNode | lib/heaps/node.rb:10-17 | Node.new: a new identity holding the record, all links an EmptyNode, no other node changed |
| NodeStores.NodeStore.SetData | lib/heaps/node.rb:27-31 | data=: description and value replaced, links kept |
| NodeStores.NodeStore.SwapContents | lib/heaps/node.rb:106-111 | swap_contents in place, as Swapped, answering self |
| NodeStores.NodeStore.InsertChild | lib/heaps/node.rb:169-179 | insert_left/insert_right: the parent's link becomes the child, the child's parent the parent, the child is the answer |
| NodeStores.NodeStore.InsertNode | lib/heaps/node.rb:50-60 | insert_node: the left slot unless it holds a valid node, else the right slot unless it does; with both taken nothing changes and self is the answer |
| NodeStores.NodeStore.Clean | lib/heaps/node.rb:113-132 | clean: the node's fields become nil, a valid parent replaces each link that `==` the node by an EmptyNode |
| NodeStores.NodeStore.CleanAll | lib/heaps/node.rb:113-132 | clean(true): every node of the subtree ends with all fields nil, children first, and the parent loses its link to it |
| NodeStores.NodeStore.MoveDown | lib/heaps/node.rb:88-104 | move_down changes only the records of the tree's nodes, to Sifted's records, and answers Sifted's answer |
| NodeStores.NodeStore.DfsPreOrder | lib/heaps/node.rb:72-83 | dfs_pre_order appends exactly Collected's records to the collector |
| NodeStores.SiftedAnswer | lib/heaps/node.rb:88-104 | move_down's answer depends on the shape only: NoMethodError when a node has a right child but no left one, else the leaf reached by preferring right children |
| NodeStores.SiftedContents | lib/heaps/node.rb:88-104 | move_down keeps the multiset of records |
| NodeStores.SiftedValid | lib/heaps/node.rb:88-104 | move_down keeps a tree of valid records valid |
| NodeStores.SiftedFrame | lib/heaps/node.rb:88-104 | move_down changes no record outside the subtree it starts from |
| NodeStores.SiftedRoot | lib/heaps/node.rb:88-104 | after move_down the starting slot holds the smaller of its own and its left child's records |
| NodeStores.SiftedOfThree | lib/heaps/node.rb:88-104 | move_down does not restore heap order: on 5 over 3 and 1 it leaves 3 over 1 and 5 |
| SiftUps.Compare | lib/heaps/heap_base.rb:283-299 | the sift-up's test is true exactly when the node's record ranks above its parent's, for either heap's comparator |
| SiftUps.BalanceShape | lib/heaps/heap_base.rb:303-314 | balance_subtree changes nothing, or exchanges the node's record with its sibling's and answers the sibling; the root is never touched |
| SiftUps.BalanceOrdersSiblings | lib/heaps.rb:338-355 | where balance_subtree acts, the two children end in ascending order of value (HeapBase only when the node is the right child) |
| SiftUps.RepairedBag | lib/heaps/heap_base.rb:283-299 | maintain_heap_property keeps the multiset of records and keeps valid records valid |
| SiftUps.RepairedKeepsRecord | lib/heaps/heap_base.rb:283-299 | maintain_heap_property answers the node that now holds the pushed record |
| SiftUps.RepairedRoot | lib/heaps/heap_base.rb:283-299 | when only the pushed record may rank above the root, the sift-up leaves no record ranking above the root, for either heap |
| SiftUps.BalanceSubtree | lib/heaps/heap_base.rb:303-314 | balance_subtree on the store: the records and answer of Balance |
| SiftUps.BalanceMinimum | lib/heaps.rb:338-355 | MinimumHeap's balance_subtree, comparing by `<=>` |
| SiftUps.MaintainHeapProperty | lib/heaps/heap_base.rb:283-299 | maintain_heap_property on the store: the records and answer of Repaired; an invalid node below the root raises ArgumentError and changes nothing |
| SiftUps.Climbing | lib/heaps/heap_base.rb:289-296 | the while loop of maintain_heap_property: the records and answer of Maintained |
| HeapRoots.Removal | lib/heaps/heap_base.rb:318-339 | remove's effect on the records: slot j leaves the tree, and a returned answer is a slot of the tree |
| HeapRoots.RemovalContents | lib/heaps/heap_base.rb:318-339 | remove loses exactly the record of the removed node and keeps valid records valid |
| HeapRoots.RemovalRaises | lib/heaps/heap_base.rb:318-339 | remove raises NoMethodError exactly when more than one node is left and move_down meets the node just cleaned, or a node with a right child but no left one |
| HeapRoots.RemoveNode | lib/heaps/heap_base.rb:318-339 | remove(node): an invalid node comes back untouched; otherwise size drops by one, the answer is the node's record and the heap has lost exactly it |
| HeapRoots.ReplaceNode | lib/heaps/heap_base.rb:318-339 | remove(root, replacement): the root's record is answered, size stays, the replacement node is cleaned |
| HeapRoots.Locate | lib/heaps/heap_base.rb:178-183 | a node include? finds holds the record sought |
| HeapRoots.LocateInTree | lib/heaps/heap_base.rb:178-183 | on a tree include? answers exactly when the tree holds the record, and then answers the first node in pre-order holding it |
| HeapRoots.ListingContents | lib/heaps/heap_base.rb:199-201 | to_a of a tree returns, listing each record once: its multiset is the tree's |
| HeapRoots.ListRoot | lib/heaps/heap_base.rb:199-201 | to_a on the root: the Listing of the tree; NoMethodError on an EmptyNode root, which has no dfs_pre_order |
| HeapRoots.EmptyListingRaises | lib/heaps/heap_base.rb:199-201 | to_a of an empty heap raises NoMethodError as written, where the mended listing answers [] |
| HeapRoots.MendedListingContents | lib/heaps/heap_base.rb:199-201 | the corrected to_a returns for a tree or an EmptyNode root, listing each record once: its multiset is the heap's, [] when empty |
| HeapRoots.InspectRoot | lib/heaps/heap_base.rb:194-196 | inspect of a tree has 2n + 1 pairs of braces and reads back as the drawing of the tree; an EmptyNode root gives `{}` |
| HeapRoots.InspectHusk | lib/heaps/node.rb:41-43 | inspect of a cleaned root is `{:nil|nil}`, of a root with a nil record `{:{}|{}}` |
| HeapRoots.ClearRoot | lib/heaps/heap_base.rb:138-144 | `root.clean(true)`: NoMethodError on an EmptyNode root, otherwise every node of the tree cleaned and nil answered |
| Drawings.ParseRender | lib/heaps/node.rb:41-43 | Parse reads back every drawing inspect writes, and leaves what follows it |
| Drawings.ReadRender | lib/heaps/node.rb:41-43 | a whole inspect text reads back as its drawing |
| Drawings.ValueTextReads | lib/heaps/node.rb:41-43 | a value's interpolated text holds no mark inspect uses and reads back as the value (nil as the empty text) |
| Drawings.InspectDrawn | lib/heaps/node.rb:41-43 | inspect, which follows child links, writes the drawing of the tree's slots |
| Drawings.InspectReads | lib/heaps/node.rb:41-43 | the text inspect writes for a subtree reads back as that subtree's values and shape |
| HeapBases.ValidNode | lib/heaps/heap_base.rb:215-228 | valid_node answers a node for an Array, a Hash or a Node, and nothing exactly for anything else |
| HeapBases.AsHashes | lib/heaps/heap_base.rb:151-155 | the records to_a lists, as the Hashes heapify pushes, make the same records |
| HeapBases.NavTarget | lib/heaps/heap_base.rb:254-279 | the slot node_path_navigation aims at: the root for at most one node, node n, or its parent in insert mode |
| HeapBases.ReachedStep | lib/heaps/heap_base.rb:274-276 | one `send(nav)` from what was reached at a slot reaches the link toward the child slot |
| HeapBases.NodePathNavigation | lib/heaps/heap_base.rb:254-279 | node_path_navigation answers what the links reach at NavTarget, or raises NoMethodError where a step meets false |
| HeapBases.Placement | lib/heaps/heap_base.rb:241-251 | insert_node_on_path attaches below a valid located parent, left slot first; ArgumentError for an EmptyNode parent or one with two children, NoMethodError for false |
| HeapBases.Insertion | lib/heaps/heap_base.rb:90-106 | where a push puts the node or why it raises, including ArgumentError when `nav_node == node` fails because the parent holds the same record |
| HeapBases.CompletePlacement | lib/heaps/heap_base.rb:241-251 | on a complete tree the next node goes to slot n + 1, which keeps the tree complete |
| HeapBases.InsertNodeOnPath | lib/heaps/heap_base.rb:241-251 | insert_node_on_path on the fields: nothing changes when Placement fails; otherwise the node is attached and sifted up |
| HeapBases.PushNode | lib/heaps/heap_base.rb:90-106 | push on the fields as PushedInto says: nil and no change for anything but an Array, Hash or Node; onto an empty heap the node is root and last_node with size 1; otherwise size + 1, last_node the new node, the records gaining the pushed one; on a minimum heap (max_type false) whose complete tree is sorted, the tree stays sorted |
| HeapBases.PushedOnPathNoFail | lib/heaps/heap_base.rb:90-106 | a push of a new valid record onto a complete tree returns |
| HeapBases.PushedExtreme | lib/heaps/heap_base.rb:90-106 | a push keeps the root extreme: the maximum of a maximum heap, the minimum otherwise |
| HeapBases.PoppedExtreme | lib/heaps/heap_base.rb:110-113 | on a heap whose root is extreme, pop answers a record ranking at least as high as every record left |
| HeapBases.PeekedExtreme | lib/heaps/heap_base.rb:115-117 | peek on such a heap answers a record ranking at least as high as every record held |
| HeapBases.DeletedRecord | lib/heaps/heap_base.rb:129-134 | delete! of a held record removes one copy of it and answers it; of a record not held it raises NoMethodError |
| HeapBases.LocateFacts | lib/heaps/heap_base.rb:178-183 | include? on a tree answers exactly for the records it holds and otherwise raises NoMethodError |
| HeapBases.DeleteNode | lib/heaps/heap_base.rb:129-134 | delete! on the fields as DeletedFrom says |
| HeapBases.ReplacedRecords | lib/heaps/heap_base.rb:120-126 | replace! on a tree answers the old root record and the heap holds the new record (when valid) in its place |
| HeapBases.ReplaceRoot | lib/heaps/heap_base.rb:120-126 | replace! on the fields as ReplacedWith says |
| HeapBases.Found | lib/heaps/heap_base.rb:178-183 | `node&.valid? ? node.to_s : nil`: the record of the node found |
| HeapBases.HeapBase.constructor | lib/heaps/heap_base.rb:62-85 | an empty heap: size 0, root and last_node an EmptyNode |
| HeapBases.HeapBase.Push | lib/heaps/heap_base.rb:90-106 | push(user_data) as PushedInto says, so a push onto a sorted complete minimum heap keeps it sorted |
| HeapBases.PushOnPath | lib/heaps/heap_base.rb:97-105 | push onto a heap with a valid root: insert_node_on_path at size + 1 and the new size, as PushedInto says |
| HeapBases.HeapBase.Pop | lib/heaps/heap_base.rb:110-113 | pop: an invalid root comes back untouched; otherwise remove(@root) as RemovedFrom says |
| HeapBases.HeapBase.Peek | lib/heaps/heap_base.rb:115-117 | peek answers the root's record; an EmptyNode root raises |
| HeapBases.HeapBase.Delete | lib/heaps/heap_base.rb:129-134 | delete!(user_data) as DeletedFrom says |
| HeapBases.HeapBase.Replace | lib/heaps/heap_base.rb:120-126 | replace!(user_data) as ReplacedWith says; size is unchanged |
| HeapBases.HeapBase.Clear | lib/heaps/heap_base.rb:138-144 | clear!: NoMethodError on an EmptyNode root; otherwise every node cleaned, root and last_node an EmptyNode, size 0, nil answered |
| HeapBases.HeapBase.Include | lib/heaps/heap_base.rb:178-183 | include? answers the record exactly when the heap holds it, nil for anything but an Array, Hash or Node, and otherwise raises only NoMethodError |
| HeapBases.HeapBase.Size | lib/heaps/heap_base.rb:185-187 | size counts the records of a tree |
| HeapBases.HeapBase.IsEmpty | lib/heaps/heap_base.rb:190-192 | empty? is size == 0, and then the heap holds no record |
| HeapBases.HeapBase.Inspect | lib/heaps/heap_base.rb:194-196 | inspect: 2n + 1 brace pairs, reads back as the tree's drawing, `{}` for an EmptyNode root |
| HeapBases.HeapBase.ToA | lib/heaps/heap_base.rb:199-201 | to_a lists each record of a tree once, size many; an EmptyNode root raises NoMethodError |
| HeapBases.HeapBase.Merge | lib/heaps/heap_base.rb:151-155 | merge: nil for anything but a heap; NoMethodError when either heap is empty; for two trees a new minimum heap (max_type false), sorted and so heap-ordered, holding each record of either heap once, the operands unchanged |
| HeapBases.HeapBase.MergeInto | lib/heaps/heap_base.rb:158-164 | merge!: nil for anything but a heap; NoMethodError with nothing changed when the other is empty; otherwise this heap gains every record of the other, which is unchanged; a minimum heap whose complete tree was sorted stays sorted |
| HeapBases.HeapBase.Union | lib/heaps/heap_base.rb:167-173 | union!: both listings taken, both heaps cleared, then a new minimum heap (max_type false), sorted, of the combined records; an empty heap raises NoMethodError in to_a with both heaps unchanged; raises where clear! does |
| HeapBases.HeapBase.PushListing | lib/heaps/heap_base.rb:158-164 | merge!'s `push` of each record listed: a raise from the listing changes nothing, otherwise the records are pushed as MergedInto says |
| HeapBases.HeapBase.ClearAndRebuild | lib/heaps/heap_base.rb:167-173 | union!'s clear! of both heaps and the rebuild from the combined listings, as ClearedRebuilt says |
| HeapBases.Pushes | lib/heaps/heap_base.rb:62-85 | initialize pushes one pair when the first argument is a String, else each entry |
| HeapBases.AddedHashes | lib/heaps/heap_base.rb:57-59 | pushing each Hash of a listing adds the valid records of it |
| HeapBases.HashesNew | lib/heaps/heap_base.rb:57-59 | distinct valid records make pushes that cannot fail |
| HeapBases.PushAll | lib/heaps/heap_base.rb:80 | `each { push }`: the pushes one after another, stopping at the first that raises; on a complete tree distinct new valid records are all added; a sorted complete minimum heap stays sorted |
| HeapBases.PushNext | lib/heaps/heap_base.rb:80 | one push of that loop: the heap grown by one more element, and no raise for a distinct new valid record on a complete tree |
| HeapBases.New | lib/heaps/heap_base.rb:62-85 | HeapBase.new(args, max_min_type) pushes what Pushes says, raising with the first push that raises; the heap built is complete with its extreme record at the root, and sorted when max_min_type is false |
| HeapBases.Combined | lib/heaps/heap_base.rb:151-155 | `(to_a + other.to_a).flatten.uniq`: both listings, the first raise passed on, duplicates dropped |
| HeapBases.RebuiltHeap | lib/heaps/heap_base.rb:57-59 | heapify of valid records answers a minimum heap holding exactly them, complete and sorted |
| HeapBases.MergedHeap | lib/heaps/heap_base.rb:151-155 | the rebuild from the listings of two trees is a sorted minimum heap holding each record of either once |
| HeapBases.Rebuild | lib/heaps/heap_base.rb:57-59 | `self.class.heapify(combined)` as a method |
| HeapBases.ListedRecords | lib/heaps/heap_base.rb:199-201 | to_a of a tree returns and lists exactly the heap's records, all valid |
| HeapBases.MergedRecords | lib/heaps/heap_base.rb:151-173 | the records merge and union! rebuild from two trees are each record of either heap, once |
| HeapBases.CombinedRecords | lib/heaps/heap_base.rb:151-155 | combining two listings of valid records returns valid records |
| MinimumHeaps.EntryNode | lib/heaps.rb:254-265 | valid_node answers a node for an Array, a Hash (read at :label) or a Node, and nothing exactly for anything else |
| MinimumHeaps.AsUserData | lib/heaps.rb:254-265 | each entry makes the same record as the HeapBase user data standing for it |
| MinimumHeaps.Walk | lib/heaps.rb:295-314 | row_wise_insert's answer from a node of a tree: attaches at a free slot, drops on a node holding the record, or raises |
| MinimumHeaps.WalkAdvances | lib/heaps.rb:295-314 | each round of row_wise_insert ends further on in level order, so the walk ends |
| MinimumHeaps.WalkComplete | lib/heaps.rb:295-314 | on a complete tree of distinct records, row_wise_insert from the row above attaches the new record at the next level-order slot |
| MinimumHeaps.RowPlacementComplete | lib/heaps.rb:278-292 | insert_node puts a new record at slot n + 1 of a complete tree of n distinct records |
| MinimumHeaps.Climb | lib/heaps.rb:300-304 | the climb `node = node.parent` while on a right child, counting rows, as ClimbFrom says |
| MinimumHeaps.CrossDown | lib/heaps.rb:305-308 | the step to the parent's right and the descent down left links, as DescendFrom says |
| MinimumHeaps.RowWiseInsert | lib/heaps.rb:295-314 | row_wise_insert on the store as Walk says |
| MinimumHeaps.LeftSpine | lib/heaps.rb:284-287 | insert_node's loop down left links to the row above the new slot |
| MinimumHeaps.InsertRowWise | lib/heaps.rb:278-292 | insert_node: the walk down, row_wise_insert, then maintain_heap_property |
| MinimumHeaps.PushEntry | lib/heaps.rb:130-145 | push on the fields as PushedMin says: nil for anything else; on an empty heap root and size set, last_node left as it was; a placed push onto a sorted complete tree keeps it sorted |
| MinimumHeaps.FollowedPush | lib/heaps.rb:130-145 | a push that places its node leaves the MinimumHeap fields well formed (MinShaped), holding the pushed record too, with the least record at the root; on a complete sorted tree it keeps the tree sorted |
| MinimumHeaps.CompleteFollowed | lib/heaps.rb:130-145 | on a complete tree of distinct records, a valid new record is always placed |
| MinimumHeaps.PushedOntoCompleteTree | lib/heaps.rb:130-145 | such a push keeps the tree complete and its records distinct |
| MinimumHeaps.PushedOntoEqual | lib/heaps.rb:130-145 | a push whose walk meets a full node holding the same record answers nil and counts one more node but links none |
| MinimumHeaps.RemoveMin | lib/heaps.rb:359-380 | remove on a minimum heap as RemovedMin says |
| MinimumHeaps.RemovedMinShaped | lib/heaps.rb:359-380 | a remove that returns leaves the MinimumHeap fields well formed (MinShaped); when the last node goes size is 0 |
| MinimumHeaps.PoppedLeast | lib/heaps.rb:149-152 | pop on a heap whose root is least answers a record no other record is below |
| MinimumHeaps.DeleteEntry | lib/heaps.rb:168-173 | delete! on the fields as DeletedMin says |
| MinimumHeaps.DeletedMinShaped | lib/heaps.rb:168-173 | delete! removes one copy of a held record and answers it, leaving the MinimumHeap fields well formed (MinShaped) |
| MinimumHeaps.ReplaceEntry | lib/heaps.rb:155-161 | replace! on the fields as ReplacedMin says |
| MinimumHeaps.ReplacedMinShaped | lib/heaps.rb:155-161 | replace! on a tree answers the root's record and leaves the new record in its place |
| MinimumHeaps.PeekedLeast | lib/heaps.rb:163-165 | peek answers the root's record, below which no record is when the root is least |
| MinimumHeaps.PushRun | lib/heaps.rb:106-125 | the pushes of initialize in order; on a complete tree distinct new valid records are all placed and keep it complete, and sorted when it was sorted |
| MinimumHeaps.Heapify | lib/heaps.rb:101-103 | heapify is new(*args), pushed as PushEach says; distinct valid entries make a complete, sorted heap of exactly their records |
| MinimumHeaps.MinimumHeap.constructor | lib/heaps.rb:106-125 | an empty heap: size 0, root and last_node an EmptyNode |
| MinimumHeaps.MinimumHeap.Push | lib/heaps.rb:130-145 | push(user_data) as PushedMin says; a placed push keeps the least record at the root, and keeps a sorted complete tree sorted |
| MinimumHeaps.MinimumHeap.Pop | lib/heaps.rb:149-152 | pop: remove(@root) as RemovedMin says, answering the least record when the root was least |
| MinimumHeaps.MinimumHeap.Peek | lib/heaps.rb:163-165 | peek answers the root's record; an EmptyNode root raises |
| MinimumHeaps.MinimumHeap.Delete | lib/heaps.rb:168-173 | delete! as DeletedMin says |
| MinimumHeaps.MinimumHeap.Replace | lib/heaps.rb:155-161 | replace! as ReplacedMin says |
| MinimumHeaps.MinimumHeap.Clear | lib/heaps.rb:177-183 | clear!: NoMethodError on an EmptyNode root; otherwise every node cleaned, size 0 |
| MinimumHeaps.MinimumHeap.Include | lib/heaps.rb:217-222 | include? answers the record exactly when the heap holds it |
| MinimumHeaps.MinimumHeap.Size | lib/heaps.rb:224-226 | size counts the records |
| MinimumHeaps.MinimumHeap.IsEmpty | lib/heaps.rb:229-231 | empty? exactly when the heap holds no record |
| MinimumHeaps.MinimumHeap.Inspect | lib/heaps.rb:233-235 | inspect reads back as the tree's drawing, `{}` for an EmptyNode root |
| MinimumHeaps.MinimumHeap.ToA | lib/heaps.rb:238-240 | `@root.to_a` answers [] on an EmptyNode root and raises NoMethodError on a Node |
| MinimumHeaps.MinimumHeap.MendedToA | lib/heaps.rb:238-240 | the corrected to_a (MendedListing) lists every record of a tree once, [] for an EmptyNode root |
| MinimumHeaps.MinimumHeap.PushEach | lib/heaps.rb:115-119 | `each { push }` as PushRun says; distinct new valid entries on a sorted complete tree keep it sorted |
| MinimumHeaps.MinimumHeap.Merge | lib/heaps.rb:190-194 | merge: nil for anything but a MinimumHeap; otherwise it raises, from to_a or from heapify |
| MinimumHeaps.MinimumHeap.MergeInto | lib/heaps.rb:197-203 | merge!: nil for another class; answers self exactly when the other heap's root is an EmptyNode, and raises otherwise |
| MinimumHeaps.MinimumHeap.Union | lib/heaps.rb:206-212 | union: nil for another class; otherwise it raises NoMethodError |
| HeapOrders.OrderedExtreme | lib/heaps/heap_base.rb:115-117 | a heap-ordered tree has its extreme record at the root |
| HeapOrders.OrderedRanks | lib/heaps/heap_base.rb:115-117 | in a heap-ordered tree no record ranks above the root's |
| HeapOrders.SiftDown | lib/heaps/heap_base.rb:318-339 | the sift-down a removal needs, by the heap's own comparator |
| HeapOrders.SiftUp | lib/heaps/heap_base.rb:283-299 | the sift-up by the heap's own comparator |
| HeapOrders.SiftDownOrders | lib/heaps/heap_base.rb:318-339 | a sift-down orders a tree that is in order but for the edges out of the starting slot |
| HeapOrders.SiftUpOrders | lib/heaps/heap_base.rb:283-299 | a sift-up orders a tree that is in order but for the edge into the starting slot |
| HeapOrders.SiftDownBag | lib/heaps/heap_base.rb:318-339 | a sift-down only moves records |
| HeapOrders.SiftUpBag | lib/heaps/heap_base.rb:283-299 | a sift-up only moves records |
| HeapOrders.Reheaped | lib/heaps/heap_base.rb:318-339 | remove as a heap of either kind needs it: the last leaf's record moved into the slot, then a sift-down or a sift-up |
| HeapOrders.ReheapedOrders | lib/heaps/heap_base.rb:318-339 | that removal keeps a heap in order, so its root extreme, and loses exactly the removed record |
| HeapOrders.RootReplaced | lib/heaps/heap_base.rb:120-126 | replace! as a heap of either kind needs it: the new record at the root, then a sift-down |
| HeapOrders.RootReplacedOrders | lib/heaps/heap_base.rb:120-126 | that replacement keeps a heap in order and trades the root's record for the new one |
| HeapOrders.MaxPopLosesTop | lib/heaps/node.rb:88-104 | as written, pop on the maximum heap 3 over 1 and 2 leaves 1 at the root above 2: an order move_down's ascending `>` does not repair |
| HeapOrders.InnerDeleteBreaksOrder | lib/heaps/heap_base.rb:318-339 | as written, delete! of an inner record of a minimum heap can leave a record below a greater parent, since remove sifts only down |
| HeapOrders.MaxPushBreaksOrder | lib/heaps/heap_base.rb:283-314 | as written, push of 30 onto the maximum heap 100; 40, 20; 10, 35 ends with 35 below 30, since balance_subtree's ascending `>` exchanges 30 with its greater sibling 40; a sift-up by the heap's comparator leaves the same heap in order |
| HeapOrders.MaxPushSiftedOrders | lib/heaps/heap_base.rb:283-299 | the maximum heap of that push is in order before it, and a sift-up by its own comparator keeps it in order |
| HeapOrders.MaxPushMoves | lib/heaps/heap_base.rb:283-314 | the moves of that push: 30 and its parent 20 exchange, then 30 and its left sibling 40, and the loop stops at the root |
| HeapOrders.PushedSiftUpOrders | lib/heaps/heap_base.rb:283-299 | a record placed at a leaf of a heap-ordered tree and sifted up by the heap's own comparator leaves the whole tree heap-ordered |
| HeapOrders.SortedOrdered | lib/heaps/node.rb:88-104 | a sorted tree (each node at most both children, left at most right) is heap-ordered |
| HeapOrders.SiftedSorts | lib/heaps/node.rb:88-104 | move_down from a slot whose child subtrees are sorted leaves the subtree sorted, in a minimum heap |
| HeapOrders.RemovalSorts | lib/heaps/heap_base.rb:318-339 | pop on a sorted minimum heap leaves it sorted |
| HeapOrders.ReplacementSorts | lib/heaps/heap_base.rb:318-339 | replace! on a sorted minimum heap leaves it sorted |
| HeapOrders.PoppedSorted | lib/heaps/heap_base.rb:110-113 | pop on a sorted minimum HeapBase leaves a sorted, heap-ordered heap with its least record at the root |
| HeapOrders.ReplacedSorted | lib/heaps/heap_base.rb:120-126 | replace! on a sorted minimum HeapBase leaves a sorted heap |
| HeapOrders.RepairedSorts | lib/heaps/heap_base.rb:283-314 | push onto a sorted minimum heap, the new record placed after every slot and sifted up by maintain_heap_property and balance_subtree, leaves the tree sorted (the same holds for MinimumHeap's sift-up, lib/heaps.rb:318-355) |
| HeapOrders.RisingRound | lib/heaps/heap_base.rb:283-314 | a round of the sift-up on a minimum heap in which the pushed record is smaller than its parent's leaves the tree sorted everywhere except on the edge from the pushed record's new parent down to it |
| HeapOrders.RisingRoundOnce | lib/heaps/heap_base.rb:283-314 | that round when the climbing record only exchanges with its parent |
| HeapOrders.RisingRoundTwice | lib/heaps/heap_base.rb:283-314 | that round when balance_subtree also exchanges the climbing record with its smaller left sibling |
| HeapOrders.RoundMoves | lib/heaps/heap_base.rb:283-314 | the moves of such a round: the exchange with the parent, then, when the parent's slot is a right child, the exchange with its left sibling exactly when that sibling is greater |
| HeapOrders.RisingExchanged | lib/heaps/heap_base.rb:290-292 | exchanging a record with a greater parent moves the climb up one level and keeps the rest sorted |
| HeapOrders.RisingExchangedTwice | lib/heaps/heap_base.rb:303-314 | the exchange with the parent followed by the one with a greater left sibling also keeps the rest sorted |
| HeapSorts.ReplacedWithSorted | lib/heaps/heap_base.rb:120-126 | replace! as ReplacedWith says leaves a sorted minimum heap sorted, with its least record at the root |
| HeapSorts.PoppedMinSorted | lib/heaps.rb:149-152 | pop on a sorted MinimumHeap leaves it sorted, with its least record at the root |
| HeapSorts.ReplacedMinSorted | lib/heaps.rb:155-161 | replace! on a sorted MinimumHeap leaves it sorted, with its least record at the root |
| LinkNodes.LinkArena.Call | lib/lists/link_node.rb:17-47 | LinkNode.new(v, anchor, strategy): a new node holding v, linked to the anchor as the strategy says, no other node changed |
| LinkNodes.SplicedFrame | lib/lists/link_node.rb:17-47 | the constructor adds the new node, changes no node but the anchor, and keeps the anchor's value |
| LinkedCommons.PutBetween | lib/lists/link_node.rb:30-37 | a node put in between two neighbours on both links, with no other node changed, keeps the nodes a chain both ways with the same ends, and the values gain v there |
| LinkNodes.SplicedAlone | lib/lists/link_node.rb:38-45 | without an anchor, :circle_before and :circle_after make a ring of one node; the others make an unlinked node |
| LinkNodes.SplicedBetween | lib/lists/link_node.rb:25-37 | with an anchor, :after and :circle_after put the node between the anchor and its old next (:single forward only), :before and :circle_before between the anchor and its old prev |
| LinkNodes.MendedSplicedAfter | lib/lists/link_node.rb:34-37 | the corrected :after and :circle_after put the new node between the anchor and its old next on both links, the old next leading back to it, and change no other node |
| LinkNodes.MendedSplicedBefore | lib/lists/link_node.rb:30-33 | the corrected :before and :circle_before put the new node between the anchor's old prev and the anchor on both links, the old prev leading on to it, and change no other node |
| LinkNodes.MatchByIdentity | lib/lists/link_node.rb:49-51 | with the default key, a node matches exactly its own value |
| LinkNodes.LinkArena.RemoveNode | lib/lists/link_node.rb:54-62 | remove! clears value, prev and next and answers the old next |
| LinkNodes.LinkArena.constructor | lib/lists/link_node.rb:17-47 | an arena holding no node |
| LinkNodes.LinkArena.SetNext | lib/lists/linked_list.rb:59-65 | `node.next = l`: that node's next link replaced, every other field and node kept |
| LinkNodes.LinkArena.SetPrev | lib/lists/doubly_linked_list.rb:102-125 | `node.prev = l`: that node's prev link replaced, every other field and node kept |
| LinkNodes.SplicedClosed | lib/lists/link_node.rb:17-47 | the new node takes an identity no node has, and every link in the arena still leads to a node of it |
| LinkNodes.RelinkedClosed | lib/lists/linked_list.rb:90-97 | relinking a node to a node of the arena keeps every link in the arena |
| LinkedCommons.FirstOnList | lib/lists/linked_commons.rb:59-62 | first moves the cursor to the head and answers the first value; nothing on an empty list |
| LinkedCommons.NextOnList | lib/lists/linked_commons.rb:64-67 | next moves to the following node; at the last node it stays on a line and wraps on a ring |
| LinkedCommons.PrevOnList | lib/lists/doubly_linked_list.rb:43-46 | prev moves to the preceding node; at the first node it stays on a line and wraps on a ring |
| LinkedCommons.LastOnList | lib/lists/linked_commons.rb:73-76 | last moves the cursor to the tail and answers the last value |
| LinkedCommons.CurrentOnList | lib/lists/linked_commons.rb:69-71 | current answers the value at the cursor's position |
| LinkedCommons.AtIndexOnLine | lib/lists/linked_commons.rb:79-82 | at_index(i) for i in 1..size makes the i-th node current and answers its value; otherwise the cursor stays |
| LinkedCommons.WalkLinks | lib/lists/linked_list.rb:44-53 | the walking loop of nth and find_by_index reaches what Walk says |
| LinkedCommons.ChaseLinks | lib/lists/circular_linked_list.rb:151-157 | the counting loop of circular find_by_index reaches what Chase says, raising on a nil link |
| LinkedCommons.WalkLine | lib/lists/linked_list.rb:44-53 | k steps forward along a line from position p reach position min(p + k, last), stopping at the tail |
| LinkedCommons.WalkBackLine | lib/lists/doubly_linked_list.rb:49-65 | k steps back along a line from position p reach position max(p - k, 0), stopping at the head |
| LinkedCommons.RingAheadSteps | lib/lists/circular_linked_list.rb:49-68 | walking k places on round a ring of n, stopping on reaching the start s, wraps q by the lesser of k and the distance to s |
| LinkedCommons.RingBehindSteps | lib/lists/circular_linked_list.rb:49-68 | the same, walking back |
| LinkedCommons.WalkRing | lib/lists/circular_linked_list.rb:49-68 | the walk along next links of a ring reaches the position RingAhead gives |
| LinkedCommons.WalkBackRing | lib/lists/circular_linked_list.rb:49-68 | the walk along prev links of a ring reaches the position RingBehind gives |
| LinkedCommons.InsertingWired | lib/lists/linked_list.rb:59-65 | insert keeps the arena closed and takes one new identity |
| LinkedCommons.InsertingAll | lib/lists/linked_commons.rb:41-54 | insert of each value in turn takes one new identity per value |
| LinkedCommons.ToA | lib/lists/linked_commons.rb:144-154 | to_a's loop answers the values from the head in order, stopping at nil or back at the head |
| LinkedCommons.ClearNodes | lib/lists/linked_commons.rb:95-110 | clear's loop remove!s every node of the list and counts them |
| LinkedCommons.Clearing | lib/lists/linked_commons.rb:95-110 | clear leaves no head, tail or cursor, size 0, and every node of the list cleared |
| LinkedCommons.FindByValue | lib/lists/linked_commons.rb:179-189 | find_by_value on any walk from the head where it halts: nil for a nil value or size 0; otherwise the first node whose key matches, nil when the walk reaches nil or comes back to the head without one, and NoMethodError when it reaches a cleared node first |
| LinkedCommons.LineTrail | lib/lists/linked_commons.rb:179-189 | a line is a walk from the head that ends at nil |
| LinkedCommons.RingTrail | lib/lists/linked_commons.rb:179-189 | a ring is a walk from the head that comes back to the head |
| LinkedCommons.LineFindReturns | lib/lists/linked_commons.rb:179-189 | on a line find_by_value halts and never raises |
| LinkedCommons.HeadValueFound | lib/lists/linked_commons.rb:113-116 | prepend's find_by_value of the head's own value halts and never raises, whatever follows the head |
| LinkedCommons.MatchIndexIs | lib/lists/linked_commons.rb:179-189 | the match find_by_value stops at is the first index whose node matches, |order| when none does |
| LinkedCommons.Merge | lib/lists/linked_commons.rb:201-212 | merge's loop computes Merged: from the right run when the condition holds, else from the left, then the rest |
| LinkedCommons.Merged | lib/lists/linked_commons.rb:201-212 | merge loses and adds no element: its length is the two runs' together |
| LinkedCommons.MergedPermutes | lib/lists/linked_commons.rb:201-212 | merge keeps every element of both runs |
| LinkedCommons.MergedInOrder | lib/lists/linked_commons.rb:201-212 | merging two runs sorted by a rank the condition follows gives a sorted run |
| LinkedCommons.MergeSort | lib/lists/linked_commons.rb:193-199 | merge_sort's recursion computes MergeSorted |
| LinkedCommons.MergeSorted | lib/lists/linked_commons.rb:193-199 | merge_sort answers a permutation of its input |
| LinkedCommons.MergeSortedInOrder | lib/lists/linked_commons.rb:193-199 | merge_sort under a condition that follows a rank sorts by that rank |
| LinkedCommons.SortedByDirection | lib/lists/linked_commons.rb:157-171 | sort! by direction leaves the values non-decreasing by key, non-increasing for :desc |
| LinkedLists.PriorLeadsToTarget | lib/lists/linked_list.rb:101-110 | find_by_value on a line: the target is the first match, the prior leads to it (the head itself for the head); with no match the prior is the last node |
| LinkedLists.FindPrior | lib/lists/linked_list.rb:101-110 | find_by_value's loop, on any walk from the head where it halts, answers PriorAndTarget: [current, nil] without a head or a value, the first match with the node before it, the last node and nil at nil, NoMethodError at a cleared node |
| LinkedLists.LinePriorReturns | lib/lists/linked_list.rb:101-110 | on a line find_by_value halts and never raises |
| LinkedLists.HeadValuePrior | lib/lists/linked_commons.rb:113-116 | prepend's find_by_value of the head's own value halts and never raises |
| LinkedLists.InsertAfterCursor | lib/lists/linked_list.rb:59-65 | insert puts v right after the cursor's node, and the new node is the cursor |
| LinkedLists.InsertIntoEmpty | lib/lists/linked_list.rb:59-65 | insert into an empty list with no cursor makes a line of one |
| LinkedLists.AppendKeepsLine | lib/lists/linked_list.rb:59-65 | insert at the tail appends v and moves the tail |
| LinkedLists.AppendingAll | lib/lists/linked_commons.rb:41-54 | inserting each value from the tail appends them all in order |
| LinkedLists.StartedLine | lib/lists/linked_commons.rb:41-54 | a list made from vs is a line of vs counted by its size, the cursor on the head when there are more than one |
| LinkedLists.InsertBeforeInterior | lib/lists/linked_list.rb:69-77 | insert_before a node other than the head puts v in front of it |
| LinkedLists.InsertBeforeIntoEmpty | lib/lists/linked_list.rb:69-77 | insert_before on an empty list with no cursor makes a line of one |
| LinkedLists.InsertBeforeAtCursor | lib/lists/linked_list.rb:69-77 | insert_before with no value on a list with a head puts v right after the cursor, where find_by_value answers the cursor as the prior: a line again when the cursor is not the tail, and past a tail left where it was when it is |
| LinkedLists.InsertAfterMatch | lib/lists/linked_list.rb:80-87 | insert_after a matching node puts v right after it |
| LinkedLists.InsertAfterIntoEmpty | lib/lists/linked_list.rb:80-87 | insert_after on an empty list makes a line of one |
| LinkedLists.RemovingMatch | lib/lists/linked_list.rb:90-97 | remove of a matching value takes the first match out of the line and answers the new size |
| LinkedLists.RemoveInterior | lib/lists/linked_list.rb:90-97 | remove of an interior node relinks its predecessor to its successor and moves the cursor to the predecessor |
| LinkedLists.RemoveHead | lib/lists/linked_list.rb:90-97 | remove of the head takes it out but leaves the cursor on the removed node |
| LinkedLists.RemoveWithoutCursorRaises | lib/lists/linked_list.rb:90-97 | remove with no head or of nil raises NoMethodError when there is no cursor |
| LinkedLists.NthOnLine | lib/lists/linked_list.rb:44-53 | nth(k) moves k - 1 nodes forward, stopping at the tail |
| LinkedLists.InsertStaleCursorLosesTail | lib/lists/linked_list.rb:59-65 | as written, insert into a list emptied by remove, whose cursor is left on the removed node, sets the head but no tail |
| LinkedLists.MendedInsertKeepsLine | lib/lists/linked_list.rb:59-65 | the corrected insert keeps a line: v after the cursor, or alone as head, tail and cursor in an empty list |
| LinkedLists.InsertBeforeHeadLoops | lib/lists/linked_list.rb:69-77 | as written, insert_before the head links the new node and the old head to each other, a 2-cycle |
| LinkedLists.MendedInsertBeforeHead | lib/lists/linked_list.rb:69-77 | the corrected insert_before the head puts v in front of the whole line as its new head |
| LinkedLists.InsertBeforeAbsentStaleTail | lib/lists/linked_list.rb:69-77 | as written, insert_before a value nothing matches puts the node after the last one but leaves the tail behind |
| LinkedLists.MendedInsertBeforeAbsent | lib/lists/linked_list.rb:69-77 | the corrected insert_before of an absent value appends v as the new tail |
| LinkedLists.MendedInsertBeforeAgrees | lib/lists/linked_list.rb:69-77 | the corrected insert_before is insert_before wherever the match is past the head |
| LinkedLists.MendedInsertBeforeIntoEmpty | lib/lists/linked_list.rb:69-77 | the corrected insert_before on an empty list makes a line of one, whatever the cursor |
| LinkedLists.PrependLoops | lib/lists/linked_commons.rb:113-116 | as written, prepend on a list with nodes is insert_before the head's value and makes the 2-cycle |
| LinkedLists.PrependedWalk | lib/lists/linked_commons.rb:113-116 | after that prepend, to_a and clear walk the new head and the old head and stop back at the new head: to_a answers [v, old head's value] |
| LinkedLists.MendedPrependKeepsLine | lib/lists/linked_commons.rb:113-116 | the corrected prepend puts v in front of every node as the new head |
| LinkedLists.InsertAfterAbsentFloats | lib/lists/linked_list.rb:80-87 | as written, insert_after a value nothing matches links the new node nowhere but makes it the cursor |
| LinkedLists.MendedInsertAfterAbsent | lib/lists/linked_list.rb:80-87 | the corrected insert_after of an absent value appends v as the new tail |
| LinkedLists.MendedInsertAfterAgrees | lib/lists/linked_list.rb:80-87 | the corrected insert_after is insert_after wherever a target is found or the list is empty |
| LinkedLists.RemoveTailLosesTail | lib/lists/linked_list.rb:90-97 | as written, remove of the tail of a line of two or more leaves the list without a tail |
| LinkedLists.MendedRemoveTail | lib/lists/linked_list.rb:90-97 | the corrected remove of the tail makes the node before it the tail |
| LinkedLists.RemoveAbsentShrinks | lib/lists/linked_list.rb:90-97 | as written, remove of an absent value changes no node but still takes one off the size |
| LinkedLists.MendedRemoveAbsent | lib/lists/linked_list.rb:90-97 | the corrected remove of an absent value changes only the cursor and keeps the size |
| LinkedLists.MendedRemoveAgrees | lib/lists/linked_list.rb:90-97 | the corrected remove is remove wherever the match is not the tail of a longer line |
| LinkedLists.LinkedList.constructor | lib/lists/linked_commons.rb:41-54 | LinkedList.new(*vs): a line of vs, size |vs|, the cursor on the head when there is more than one |
| LinkedLists.LinkedList.InsertEach | lib/lists/linked_commons.rb:41-54 | initialize's `args.each { insert }`: the state InsertingAll gives, each value appended in turn |
| LinkedLists.LinkedList.First | lib/lists/linked_commons.rb:59-62 | first, as Firsted |
| LinkedLists.LinkedList.Next | lib/lists/linked_commons.rb:64-67 | next, as Stepped forward |
| LinkedLists.LinkedList.Last | lib/lists/linked_commons.rb:73-76 | last, as Lasted |
| LinkedLists.LinkedList.Current | lib/lists/linked_commons.rb:69-71 | current answers the cursor's value, on a line the value at its position |
| LinkedLists.LinkedList.IsEmpty | lib/lists/linked_commons.rb:90-92 | empty? is size 0, which on a counted line means no nodes |
| LinkedLists.LinkedList.Nth | lib/lists/linked_list.rb:44-53 | nth, as NthStepped |
| LinkedLists.LinkedList.FindByIndex | lib/lists/linked_list.rb:112-118 | find_by_index: nil outside 1..size, else the index-th node, which becomes the cursor |
| LinkedLists.LinkedList.AtIndex | lib/lists/linked_commons.rb:79-82 | at_index: find_by_index then the cursor's value |
| LinkedLists.LinkedList.Insert | lib/lists/linked_list.rb:59-65 | insert: the state Inserting gives, the new size answered |
| LinkedLists.LinkedList.FindPriorAndTarget | lib/lists/linked_list.rb:101-110 | find_by_value's [prior, target], or NoMethodError, on any walk from the head where it halts, as PriorAndTarget |
| LinkedLists.LinkedList.InsertBefore | lib/lists/linked_list.rb:69-77 | insert_before on any list whose walk halts: the state InsertingBefore gives and the new size, or NoMethodError with nothing changed when find_by_value meets a cleared node |
| LinkedLists.LinkedList.LinkBefore | lib/lists/linked_list.rb:71-76 | insert_before's steps once find_by_value has answered prior and target, as InsertedBefore, the new size answered |
| LinkedLists.LinkedList.Prepend | lib/lists/linked_commons.rb:113-116 | prepend on any list: insert_before the head's value, which halts at the head and never raises |
| LinkedLists.LinkedList.InsertAfter | lib/lists/linked_list.rb:80-87 | insert_after on any list whose walk halts: the state InsertingAfter gives and the new size, or NoMethodError with nothing changed |
| LinkedLists.LinkedList.LinkAfter | lib/lists/linked_list.rb:82-86 | insert_after's steps once find_by_value has answered the target, as InsertedAfter, the new size answered |
| LinkedLists.LinkedList.Remove | lib/lists/linked_list.rb:90-97 | remove on any list whose walk halts: the state Removing gives, the remaining size, or NoMethodError from find_by_value (nothing changed) or for want of a prior |
| LinkedLists.LinkedList.Unlink | lib/lists/linked_list.rb:92-96 | remove's steps once find_by_value has answered, as RemovedAt: NoMethodError without a prior, else the remaining size |
| LinkedLists.LinkedList.ToArray | lib/lists/linked_commons.rb:144-154 | to_a answers the values met from the head until nil or the head comes round again, on a line or on the loop prepend leaves; the cursor moves to the head |
| LinkedLists.LinkedList.Clear | lib/lists/linked_commons.rb:95-110 | clear remove!s the nodes met from the head until nil or the head comes round again, answers their number and leaves an empty list |
| LinkedLists.LinkedList.Sort | lib/lists/linked_commons.rb:157-171 | sort!: the values to_a meets merge-sorted by the active condition, the list cleared and rebuilt from them as a line, size answered |
| DoublyLinkedLists.AppendKeepsDoubleLine | lib/lists/doubly_linked_list.rb:72-78 | insert at the tail appends v, linked both ways, and moves the tail |
| DoublyLinkedLists.InsertInteriorStalePrev | lib/lists/doubly_linked_list.rb:72-78 | insert after an interior cursor puts v after it on the forward line, but the following node's prev still skips it |
| DoublyLinkedLists.AppendingAll | lib/lists/linked_commons.rb:41-54 | inserting each value from the tail appends them all, linked both ways |
| DoublyLinkedLists.StartedDoubleLine | lib/lists/linked_commons.rb:41-54 | a list made from vs is a line of vs linked both ways, counted by its size |
| DoublyLinkedLists.InsertBeforeHead | lib/lists/doubly_linked_list.rb:82-89 | insert_before the head puts v in front as the new head, linked both ways |
| DoublyLinkedLists.InsertBeforeInteriorHidden | lib/lists/doubly_linked_list.rb:82-89 | insert_before a node past the head leaves the forward line as it was: the new node is reachable only backward |
| DoublyLinkedLists.InsertBeforeIntoEmpty | lib/lists/doubly_linked_list.rb:82-89 | insert_before on an empty list makes a line of one as head and tail |
| DoublyLinkedLists.InsertBeforeAbsent | lib/lists/doubly_linked_list.rb:82-89 | insert_before an absent value makes an unlinked node and counts it |
| DoublyLinkedLists.PrependOnDoubleLine | lib/lists/linked_commons.rb:113-116 | prepend on a doubly linked list with nodes puts v in front as the new head |
| DoublyLinkedLists.InsertAfterTail | lib/lists/doubly_linked_list.rb:92-99 | insert_after the tail appends v, linked both ways, as the new tail |
| DoublyLinkedLists.InsertAfterInteriorStalePrev | lib/lists/doubly_linked_list.rb:92-99 | insert_after an interior node puts v after it forward, but the following node's prev still skips it |
| DoublyLinkedLists.InsertAfterIntoEmpty | lib/lists/doubly_linked_list.rb:92-99 | insert_after on an empty list makes a line of one as head, tail and cursor |
| DoublyLinkedLists.InsertAfterAbsentFloats | lib/lists/doubly_linked_list.rb:92-99 | as written, insert_after an absent value counts one more and makes an unlinked node the cursor |
| DoublyLinkedLists.MendedInsertAfterAbsent | lib/lists/doubly_linked_list.rb:92-99 | the corrected insert_after of an absent value appends v, linked both ways, as the new tail |
| DoublyLinkedLists.MendedSplicedAfterLine | lib/lists/link_node.rb:34-37 | the corrected :after splice after the p-th node keeps a line linked both ways, with the new node at p + 1 (the new tail after the tail) and v put in at p + 1 among the values |
| DoublyLinkedLists.MendedSplicedBeforeLine | lib/lists/link_node.rb:30-33 | the corrected :before splice in front of the p-th node keeps a line linked both ways, with the new node at p (the new head in front of the head) and v put in at p among the values |
| DoublyLinkedLists.MendedInsertKeepsDoubleLine | lib/lists/doubly_linked_list.rb:72-78 | the corrected insert keeps the line linked both ways wherever the cursor is: v right after the cursor's node, as the new cursor |
| DoublyLinkedLists.MendedInsertAfterFound | lib/lists/doubly_linked_list.rb:92-99 | the corrected insert_after a match keeps the line linked both ways, v right after the match as the new cursor |
| DoublyLinkedLists.MendedInsertBeforeFound | lib/lists/doubly_linked_list.rb:82-89 | the corrected insert_before a match keeps the line linked both ways, v right in front of the match as the new cursor |
| DoublyLinkedLists.MendedInsertBeforeAbsent | lib/lists/doubly_linked_list.rb:82-89 | the corrected insert_before of an absent value is the corrected insert_after: v appended, linked both ways, as the new tail and cursor |
| DoublyLinkedLists.DoubleLineBypassed | lib/lists/doubly_linked_list.rb:102-125 | unlinking a node of a line linked both ways leaves a line of the other nodes, linked both ways |
| DoublyLinkedLists.RemovedAtDoubleLine | lib/lists/doubly_linked_list.rb:102-125 | remove of the i-th node takes it out (head, tail, middle or only node) and answers size - 1 |
| DoublyLinkedLists.RemoveOnDoubleLine | lib/lists/doubly_linked_list.rb:102-125 | remove of a matching value takes the first match out and keeps the rest in order, linked both ways |
| DoublyLinkedLists.RemoveAbsent | lib/lists/doubly_linked_list.rb:102-125 | remove of an absent value, of nil or from size 0 changes nothing and answers nil |
| DoublyLinkedLists.RemoveLoneUncountedRaises | lib/lists/doubly_linked_list.rb:102-125 | remove of the only node of a list whose size is not 1 raises NoMethodError |
| DoublyLinkedLists.NthOnDoubleLine | lib/lists/doubly_linked_list.rb:49-65 | nth(k) moves k - 1 forward clamped at the tail for k > 0, |k| back clamped at the head for k < 0, and stays for 0 |
| DoublyLinkedLists.NthForth | lib/lists/doubly_linked_list.rb:49-65 | nth with a positive index walks next links, stopping at the last node |
| DoublyLinkedLists.NthBack | lib/lists/doubly_linked_list.rb:49-65 | nth with a negative index walks prev links, stopping at the first node |
| DoublyLinkedLists.DoublyLinkedList.constructor | lib/lists/linked_commons.rb:41-54 | a line of vs linked both ways, size |vs| |
| DoublyLinkedLists.DoublyLinkedList.InsertEach | lib/lists/linked_commons.rb:41-54 | initialize's inserts, as InsertingAll gives |
| DoublyLinkedLists.DoublyLinkedList.First | lib/lists/linked_commons.rb:59-62 | first, as Firsted |
| DoublyLinkedLists.DoublyLinkedList.Next | lib/lists/linked_commons.rb:64-67 | next, as Stepped forward |
| DoublyLinkedLists.DoublyLinkedList.Last | lib/lists/linked_commons.rb:73-76 | last, as Lasted |
| DoublyLinkedLists.DoublyLinkedList.Current | lib/lists/linked_commons.rb:69-71 | current answers the cursor's value, on a line the value at its position |
| DoublyLinkedLists.DoublyLinkedList.IsEmpty | lib/lists/linked_commons.rb:90-92 | empty? is size 0, which on a counted list means no nodes |
| DoublyLinkedLists.DoublyLinkedList.AtIndex | lib/lists/linked_commons.rb:79-82 | at_index: find_by_index then the cursor's value, as AtIndexed |
| DoublyLinkedLists.DoublyLinkedList.Prepend | lib/lists/linked_commons.rb:113-116 | prepend on any list: insert_before the head's value, which halts at the head and never raises, answering the size |
| DoublyLinkedLists.DoublyLinkedList.ToArray | lib/lists/linked_commons.rb:144-154 | to_a answers the values met from the head along next links until nil or the head comes round again; the cursor moves to the head |
| DoublyLinkedLists.DoublyLinkedList.Clear | lib/lists/linked_commons.rb:95-110 | clear remove!s the nodes that walk meets, answers their number and leaves an empty list |
| DoublyLinkedLists.DoublyLinkedList.Prev | lib/lists/doubly_linked_list.rb:43-46 | prev, as Stepped back |
| DoublyLinkedLists.DoublyLinkedList.Nth | lib/lists/doubly_linked_list.rb:49-65 | nth, as NthStepped |
| DoublyLinkedLists.DoublyLinkedList.FindByIndex | lib/lists/doubly_linked_list.rb:129-135 | find_by_index: nil outside 1..size, else the index-th node, which becomes the cursor |
| DoublyLinkedLists.DoublyLinkedList.Insert | lib/lists/doubly_linked_list.rb:72-78 | insert: the state Inserting gives, the new size answered |
| DoublyLinkedLists.DoublyLinkedList.FindTarget | lib/lists/linked_commons.rb:179-189 | find_by_value on the list's own fields: the target Target gives, or NoMethodError when FindRaises |
| DoublyLinkedLists.DoublyLinkedList.InsertBefore | lib/lists/doubly_linked_list.rb:82-89 | insert_before on any list whose walk halts: the state InsertingBefore gives and the new size, or NoMethodError with nothing changed when find_by_value meets a cleared node |
| DoublyLinkedLists.DoublyLinkedList.LinkBefore | lib/lists/doubly_linked_list.rb:84-88 | insert_before's steps once find_by_value has answered, as InsertedBefore, the new size answered |
| DoublyLinkedLists.DoublyLinkedList.InsertAfter | lib/lists/doubly_linked_list.rb:92-99 | insert_after on any list whose walk halts: the state InsertingAfter gives and the new size, or NoMethodError with nothing changed |
| DoublyLinkedLists.DoublyLinkedList.LinkAfter | lib/lists/doubly_linked_list.rb:94-98 | insert_after's steps once find_by_value has answered, as InsertedAfter, the new size answered |
| DoublyLinkedLists.DoublyLinkedList.Remove | lib/lists/doubly_linked_list.rb:102-125 | remove on any list whose walk halts: the state Removing gives, nil without a match, else the remaining size; NoMethodError from find_by_value (nothing changed) or from a nil link |
| DoublyLinkedLists.DoublyLinkedList.Unlink | lib/lists/doubly_linked_list.rb:104-124 | remove's four cases (only node, top, bottom, middle) once find_by_value has answered, as RemovedAt and RemovedAnswer |
| DoublyLinkedLists.DoublyLinkedList.Sort | lib/lists/linked_commons.rb:157-171 | sort!: the values to_a meets merge-sorted, the list cleared and rebuilt from them as a line linked both ways |
| CircularLinkedLists.AppendKeepsRing | lib/lists/circular_linked_list.rb:74-86 | insert into an empty list or at the tail keeps the ring closed: the new tail leads to the head, the head back to it |
| CircularLinkedLists.RingOfOne | lib/lists/link_node.rb:38-45 | a circular node made without an anchor is a ring of one holding v |
| CircularLinkedLists.InsertInteriorStaleRing | lib/lists/circular_linked_list.rb:74-86 | insert after an interior cursor puts v on the ring of next links, but the following node's prev still skips it |
| CircularLinkedLists.AppendingAllRing | lib/lists/linked_commons.rb:41-54 | inserting each value from the tail appends them all on a counted ring |
| CircularLinkedLists.StartedRing | lib/lists/linked_commons.rb:41-54 | a list made from vs is a counted ring of vs linked both ways |
| CircularLinkedLists.InsertBeforeHeadRing | lib/lists/circular_linked_list.rb:90-103 | insert_before the head makes v the head and closes the ring through the tail |
| CircularLinkedLists.InsertBeforeInteriorHiddenRing | lib/lists/circular_linked_list.rb:90-103 | insert_before a node past the head leaves the ring of next links as it was |
| CircularLinkedLists.InsertBeforeIntoEmpty | lib/lists/circular_linked_list.rb:90-103 | insert_before on an empty list makes a ring of one as head, tail and cursor |
| CircularLinkedLists.InsertBeforeAbsentOwnRing | lib/lists/circular_linked_list.rb:90-103 | insert_before an absent value makes a ring of one of its own and counts it |
| CircularLinkedLists.PrependOnRing | lib/lists/linked_commons.rb:113-116 | prepend on a ring with nodes makes v the head of the ring |
| CircularLinkedLists.InsertAfterTailRing | lib/lists/circular_linked_list.rb:106-119 | insert_after the tail appends v and closes the ring through it |
| CircularLinkedLists.InsertingAfterInteriorIs | lib/lists/circular_linked_list.rb:106-119 | insert_after a node short of the tail splices the new node after the match, moves the cursor to it, counts it and answers the new size |
| CircularLinkedLists.InsertAfterInteriorStaleRing | lib/lists/circular_linked_list.rb:106-119 | insert_after an interior node puts v on the ring of next links, but the following node's prev still skips it |
| CircularLinkedLists.InsertAfterIntoEmpty | lib/lists/circular_linked_list.rb:106-119 | insert_after on an empty list makes a ring of one |
| CircularLinkedLists.InsertAfterAbsentOwnRing | lib/lists/circular_linked_list.rb:106-119 | insert_after an absent value makes a ring of one of its own and counts it |
| CircularLinkedLists.MendedSplicedAfterRing | lib/lists/link_node.rb:42-45 | the corrected :circle_after splice after the p-th node, short of the tail, keeps a ring linked both ways with the new node and v at p + 1 |
| CircularLinkedLists.MendedSplicedBeforeRing | lib/lists/link_node.rb:38-41 | the corrected :circle_before splice in front of the p-th node, past the head, keeps a ring linked both ways with the new node and v at p |
| CircularLinkedLists.MendedInsertKeepsRing | lib/lists/circular_linked_list.rb:74-86 | the corrected insert keeps a counted ring linked both ways wherever the cursor is: v right after the cursor's node, as the new cursor |
| CircularLinkedLists.MendedInsertAfterFoundRing | lib/lists/circular_linked_list.rb:106-119 | the corrected insert_after a match keeps the ring linked both ways, v right after the match as the new cursor |
| CircularLinkedLists.MendedInsertAfterAbsentRing | lib/lists/circular_linked_list.rb:106-119 | the corrected insert_after of an absent value appends v to the ring as the new tail and cursor |
| CircularLinkedLists.MendedInsertBeforeFoundRing | lib/lists/circular_linked_list.rb:90-103 | the corrected insert_before a match keeps the ring linked both ways, v right in front of the match as the new cursor (the head in front of the head) |
| CircularLinkedLists.MendedInsertBeforeAbsentRing | lib/lists/circular_linked_list.rb:90-103 | the corrected insert_before of an absent value is the corrected insert_after: v appended to the ring as the new tail and cursor |
| CircularLinkedLists.RingUnlinked | lib/lists/circular_linked_list.rb:122-147 | unlinking a node of a ring leaves the other nodes a ring linked both ways |
| CircularLinkedLists.RemovedHeadRing | lib/lists/circular_linked_list.rb:122-147 | remove of the head of a ring of two or more leaves a ring of the rest |
| CircularLinkedLists.RemovedTailRing | lib/lists/circular_linked_list.rb:122-147 | remove of the tail leaves a ring of the values before it |
| CircularLinkedLists.RemovedMiddleRing | lib/lists/circular_linked_list.rb:122-147 | remove of a middle node leaves a ring of the values before and after it |
| CircularLinkedLists.RemovedAtRing | lib/lists/circular_linked_list.rb:122-147 | remove of the i-th node (head, tail, middle or sole node) takes it out, keeps the ring closed and answers size - 1 |
| CircularLinkedLists.RemoveOnRing | lib/lists/circular_linked_list.rb:122-147 | remove of a matching value takes the first match out of the ring |
| CircularLinkedLists.RemoveAbsent | lib/lists/circular_linked_list.rb:122-147 | remove of an absent value changes nothing and answers nil |
| CircularLinkedLists.RemoveLoneUncountedDangles | lib/lists/circular_linked_list.rb:122-147 | remove of the only node of a ring whose size is not 1 clears the node but keeps head and tail on it |
| CircularLinkedLists.RingNth | lib/lists/circular_linked_list.rb:49-68 | the position nth reaches: index - 1 places on, or -index places back, stopping on coming back to the start |
| CircularLinkedLists.NthOnRing | lib/lists/circular_linked_list.rb:49-68 | nth on a ring lands where RingNth says, so a full turn or more gives the start value |
| CircularLinkedLists.NthForthRing | lib/lists/circular_linked_list.rb:49-68 | nth with a positive index walks next links to the position RingNth gives |
| CircularLinkedLists.NthBackRing | lib/lists/circular_linked_list.rb:49-68 | nth with a negative index walks prev links to the position RingNth gives |
| CircularLinkedLists.AtIndexOnRing | lib/lists/circular_linked_list.rb:151-157 | at_index(i) for i in 1..size makes the i-th node current and answers its value |
| CircularLinkedLists.CircleFindReturns | lib/lists/linked_commons.rb:179-189 | on a ring of next links find_by_value halts, at the head again at the latest, and never raises |
| CircularLinkedLists.CircularLinkedList.constructor | lib/lists/linked_commons.rb:41-54 | a counted ring of vs linked both ways |
| CircularLinkedLists.CircularLinkedList.InsertEach | lib/lists/linked_commons.rb:41-54 | initialize's inserts, as InsertingAll gives |
| CircularLinkedLists.CircularLinkedList.First | lib/lists/linked_commons.rb:59-62 | first, as Firsted |
| CircularLinkedLists.CircularLinkedList.Next | lib/lists/linked_commons.rb:64-67 | next, as Stepped forward: from the tail to the head |
| CircularLinkedLists.CircularLinkedList.Last | lib/lists/linked_commons.rb:73-76 | last, as Lasted |
| CircularLinkedLists.CircularLinkedList.Current | lib/lists/linked_commons.rb:69-71 | current answers the cursor's value, on a ring the value at its position |
| CircularLinkedLists.CircularLinkedList.IsEmpty | lib/lists/linked_commons.rb:90-92 | empty? is size 0, which on a counted ring means no nodes |
| CircularLinkedLists.CircularLinkedList.AtIndex | lib/lists/linked_commons.rb:79-82 | at_index: find_by_index then the cursor's value; NoMethodError where find_by_index meets a nil link |
| CircularLinkedLists.CircularLinkedList.Prepend | lib/lists/linked_commons.rb:113-116 | prepend on any list: insert_before the head's value, which halts at the head and never raises |
| CircularLinkedLists.CircularLinkedList.Clear | lib/lists/linked_commons.rb:95-110 | clear remove!s the nodes that walk meets, answers their number and leaves an empty ring |
| CircularLinkedLists.CircularLinkedList.Sort | lib/lists/linked_commons.rb:157-171 | sort!: the values to_a meets merge-sorted by the active condition, the list cleared and rebuilt from them as a ring, size answered |
| CircularLinkedLists.CircularLinkedList.Prev | lib/lists/circular_linked_list.rb:43-46 | prev, as Stepped back: from the head to the tail |
| CircularLinkedLists.CircularLinkedList.Nth | lib/lists/circular_linked_list.rb:49-68 | nth: each step moves the cursor, the walk stops back at its start |
| CircularLinkedLists.CircularLinkedList.FindByIndex | lib/lists/circular_linked_list.rb:151-157 | find_by_index: nil outside 1..size, else index - 1 next links from the head |
| CircularLinkedLists.CircularLinkedList.Insert | lib/lists/circular_linked_list.rb:74-86 | insert: the state Inserting gives |
| CircularLinkedLists.CircularLinkedList.FindTarget | lib/lists/linked_commons.rb:179-189 | find_by_value on the list's own fields: the target Target gives, or NoMethodError when FindRaises |
| CircularLinkedLists.CircularLinkedList.InsertBefore | lib/lists/circular_linked_list.rb:90-103 | insert_before on any list whose walk halts: the state InsertingBefore gives and its answer, NoMethodError with nothing changed when find_by_value meets a cleared node |
| CircularLinkedLists.CircularLinkedList.LinkBefore | lib/lists/circular_linked_list.rb:92-102 | insert_before's steps once find_by_value has answered, as InsertedBefore and InsertedBeforeAnswer |
| CircularLinkedLists.CircularLinkedList.LinkBeforeHead | lib/lists/circular_linked_list.rb:97-101 | insert_before the head: the new node becomes head, leads back to the tail, and the tail on to it; NoMethodError with no tail |
| CircularLinkedLists.CircularLinkedList.InsertAfter | lib/lists/circular_linked_list.rb:106-119 | insert_after on any list whose walk halts: the state InsertingAfter gives and its answer, NoMethodError with nothing changed when find_by_value meets a cleared node |
| CircularLinkedLists.CircularLinkedList.LinkAfter | lib/lists/circular_linked_list.rb:108-118 | insert_after's steps once find_by_value has answered (and insert's, on the cursor), as InsertedAfter |
| CircularLinkedLists.CircularLinkedList.Remove | lib/lists/circular_linked_list.rb:122-147 | remove on any list whose walk halts: the state Removing gives and its answer, NoMethodError from find_by_value with nothing changed |
| CircularLinkedLists.CircularLinkedList.Unlink | lib/lists/circular_linked_list.rb:124-146 | remove's cases once find_by_value has answered (only node, head, tail, middle), as RemovedAt and RemovedAnswer |
| CircularLinkedLists.CircularLinkedList.UnlinkHead | lib/lists/circular_linked_list.rb:129-133 | remove of the head: the next node becomes head and cursor, linked back to the old prev and from the tail; NoMethodError at a nil link |
| CircularLinkedLists.CircularLinkedList.UnlinkTail | lib/lists/circular_linked_list.rb:134-138 | remove of the tail: the previous node becomes tail and cursor, linked on to the old next and from the head; NoMethodError at a nil link |
| CircularLinkedLists.CircularLinkedList.UnlinkMiddle | lib/lists/circular_linked_list.rb:139-143 | remove of a middle node: its neighbours are linked past it both ways, the previous one the cursor; NoMethodError at a nil link |
| CircularLinkedLists.CircularLinkedList.ToArray | lib/lists/linked_commons.rb:144-154 | to_a answers the values met from the head along next links until the head comes round again (or nil); the cursor moves to the head |
| BinaryTrees.InOrder | lib/binary_tree/node.rb:41-43 | to_a lists the left subtree, the value, the right subtree, one entry per Node; [] for an EmptyNode |
| BinaryTrees.InOrderIncreasing | lib/binary_tree/node.rb:41-43 | on an ordered tree to_a is strictly increasing |
| BinaryTrees.RenderedBraces | lib/binary_tree/node.rb:37-39 | inspect writes 2n + 1 pairs of braces for n Nodes |
| BinaryTrees.RenderedReads | lib/binary_tree/node.rb:37-39 | inspect loses nothing: its text reads back as the tree |
| BinaryTrees.Pushed | lib/binary_tree/node.rb:20-26 | push: a smaller value goes left, a greater one right, an equal one is refused; the values gain v |
| BinaryTrees.Attached | lib/binary_tree/node.rb:47-53 | push_left/push_right: `child.push(v) or child = Node.new(v)` |
| BinaryTrees.AttachedOrdered | lib/binary_tree/node.rb:47-53 | push_left/push_right keep a child subtree ordered |
| BinaryTrees.AttachedNew | lib/binary_tree/node.rb:47-53 | push_left/push_right of a value the child lacks add exactly one Node, holding it |
| BinaryTrees.PushedOrdered | lib/binary_tree/node.rb:20-26 | push keeps the search-tree order |
| BinaryTrees.PushedNew | lib/binary_tree/node.rb:20-26 | pushing a value the tree lacks adds exactly one Node, holding it |
| BinaryTrees.PushedAtRoot | lib/binary_tree/node.rb:24 | pushing the root's value answers false and changes nothing |
| BinaryTrees.PushedHeld | lib/binary_tree/node.rb:20-26 | pushing a held value adds no value |
| BinaryTrees.PushedHeldBelowDrops | lib/binary_tree/node.rb:47-53 | as written, pushing a value held below the root replaces its Node by a new leaf, dropping its subtrees |
| BinaryTrees.MendedPushed | lib/binary_tree/node.rb:20-26 | the corrected push adds v and keeps the root's value |
| BinaryTrees.MendedAttached | lib/binary_tree/node.rb:47-53 | the corrected push_left/push_right: a new leaf only in an empty slot |
| BinaryTrees.MendedPushedOrdered | lib/binary_tree/node.rb:20-26 | the corrected push keeps the search-tree order |
| BinaryTrees.MendedPushedHeld | lib/binary_tree/node.rb:20-26 | the corrected push of a held value changes nothing |
| BinaryTrees.MendedPushedBelowKeeps | lib/binary_tree/node.rb:47-53 | the tree on which push as written loses a Node keeps it under the corrected push |
| BinaryTrees.PushedAllNew | lib/binary_tree/node.rb:20-26 | pushing distinct new values one after another keeps the tree ordered and adds one Node each |
| BinaryTrees.GrownInOrder | lib/binary_tree/node.rb:41-43 | after Node.new and pushes of distinct values, to_a is strictly increasing and lists every value once |
| BinaryTrees.Node.constructor | lib/binary_tree/node.rb:14-17 | Node.new(v): v with two empty slots |
| BinaryTrees.Node.Push | lib/binary_tree/node.rb:20-26 | push in place: the tree becomes Pushed's, the answer PushAnswer's |
| BinaryTrees.Node.PushLeft | lib/binary_tree/node.rb:47-49 | push_left in place, as Attached |
| BinaryTrees.Node.PushRight | lib/binary_tree/node.rb:51-53 | push_right in place, as Attached |
| BinaryTrees.Node.Include | lib/binary_tree/node.rb:29-35 | include? is true exactly on meeting v along the comparisons; on an ordered tree exactly when the tree holds v |
| BinaryTrees.Node.ToA | lib/binary_tree/node.rb:41-43 | to_a answers InOrder of the tree |
| BinaryTrees.Node.Inspect | lib/binary_tree/node.rb:37-39 | inspect answers the rendered tree, which reads back as the tree |

## Left out

- Benchmarks (bin/), lib/heaps/min_heap.rb (an unfinished stub), lib/heaps/base_node.rb (a data holder only benchmarks use), `display`, `dlog` and `puts`: no behaviour to state, or output only.
- Floating point: `Math.log2(pos).floor` and `(col / 2.0).ceil` are integer floor-log2 and ceiling division (HeapSlots).
- Reflective dispatch: `send(nav)` is a Left/Right turn. `node_request`/`node_value_request`, `LinkedCommons.call` and `nodes` rely on `send` and `instance_variable_get` and are not modelled.
- Ruby's `hash` (XOR of the fields' hashes) behind `Node#==`: modelled as equality of description and value.
- Data: a description is an `Option<string>` and a value an `Option<int>` (nil or an Integer). Values of any other class, and comparisons between mixed classes, are not modelled.
- BinaryTrees: a Node's values are `int`. Values of other Comparable classes are not modelled.
- List values are `int`, and a key function is a total `int -> int`. A value of another class and a key block that raises are not modelled. `.dup` copies are the values themselves.
- `each` with a block calls code the model cannot see. Its walk is the one to_a takes (LinkedCommons.ToA). The Enumerator `each` answers without a block is not modelled.
- `row_wise_collector` (lib/heaps.rb:384-403) is a debug helper no modelled path calls.
- EmptyNode `<=>` and `insert`, and EmptyNode `rating`/`title`: no modelled path sends them. Every comparison in the heaps is guarded by `valid?`, and EmptyNode answers false to it.
- HeapBases.ValidNode: a Heaps::Node argument is modelled as a node that no tree links (all three links an EmptyNode), pushed as a fresh node holding its record. A Node already linked into a tree, and the caller's later access to the object pushed (aliasing), are not modelled.
- The arity errors of `new` with extra arguments are not modelled.
- MinimumHeaps.EntryNode: an Array entry is modelled with exactly two elements (`Pair`). `Node.new(*user_data)` raises ArgumentError for an Array of any other length, so push, delete!, replace!, include? and new given such an entry raise; that input is not modelled.
- MinimumHeaps.PushRun: stops at the first push the model does not follow, while Ruby goes on with the next push. Three kinds of push are not followed: a nil value onto an empty heap, a push dropped on a full node holding the same record, and a raise. The first two leave a size that no longer counts the tree, and further pushes from that state are not modelled.
- MinimumHeaps.MinimumHeap.PushEach, MinimumHeaps.Heapify: the same early stop, through PushRun.
- HeapBases.PushAll, HeapBases.New: stop at the first push that raises, as Ruby does. After a push that raised, Valid() is not promised, since the node may already be counted.
- After a call that raised, a heap is not promised to be well formed. Further calls on that object are not modelled.
- MinimumHeaps.FollowedPush, MinimumHeaps.MinimumHeap.Push, MinimumHeaps.PushEntry: sorted order (each node at most both children, left at most right) after a push is stated for a complete tree, the shape pushes of distinct new valid records keep (MinimumHeaps.PushRun). On other trees only the least record at the root is stated.
- HeapBases.HeapBase.Push, HeapBases.PushNode, HeapBases.PushAll, HeapBases.New: sorted order after a push is stated only for a minimum heap (max_type false) with a complete tree. For a maximum heap it does not hold (HeapOrders.MaxPushBreaksOrder, under "## Findings"), so there the contracts give the records, the shape and the extreme record at the root.
- LinkedLists.LinkedList.Remove, LinkedLists.LinkedList.InsertBefore, LinkedLists.LinkedList.InsertAfter, LinkedLists.LinkedList.FindPriorAndTarget, LinkedLists.FindPrior: take any walk from the head, a tail-less list included, and model the NoMethodError of a cleared node met on it; they require that the walk halts (`PriorHalts`). On the loop an as-written prepend or insert_before of the head leaves (LinkedLists.PrependLoops), find_by_value stops only at nil, at a cleared node or at a match, so Ruby runs forever for a value the loop does not hold; that call is not modelled. to_a, clear and sort! on the loop are modelled (LinkedLists.PrependedWalk), and prepend always halts (LinkedLists.HeadValuePrior).
- DoublyLinkedLists.DoublyLinkedList.Remove, DoublyLinkedLists.DoublyLinkedList.InsertBefore, DoublyLinkedLists.DoublyLinkedList.InsertAfter, DoublyLinkedLists.DoublyLinkedList.FindTarget, LinkedCommons.FindByValue: take any walk from the head, and model the NoMethodError of a cleared node met on it (the state remove leaves after an interior insert_before). They require that the walk halts (`FindHalts`). A walk that comes back without a match to a node other than the head runs forever in Ruby and is not modelled; no modelled doubly call builds one.
- CircularLinkedLists.CircularLinkedList.Remove, CircularLinkedLists.CircularLinkedList.InsertBefore, CircularLinkedLists.CircularLinkedList.InsertAfter, CircularLinkedLists.CircularLinkedList.FindTarget: the same, on the ring's walk from the head; a walk that closes on a node other than the head without a match is not modelled.
- The list methods take the walk from the head as a ghost argument. Which operations, applied in which order, produce a given walk is stated only by the lemmas about single operations (for example DoublyLinkedLists.InsertBeforeInteriorHidden); no lemma chains several calls.
- The corrected inserts of the doubly and circular lists (the `Mended…` members of DoublyLinkedLists and CircularLinkedLists) are definitions on list states with lemmas about them; the list classes run insert, insert_before and insert_after as written.
- Concurrency: none; the library is single-threaded.

## Findings

| source | as written | input that shows it | evidently intended | confidence | as-written member | corrected member |
|---|---|---|---|---|---|---|
| lib/lists/linked_commons.rb:113-116 | prepend is insert_before of the head's value, which links the new node and the head to each other | prepend(0) on a list of 1, 2 | the new node in front of the whole list as its head | not executed | LinkedLists.PrependLoops | LinkedLists.MendedPrependKeepsLine |
| lib/lists/linked_list.rb:69-77 | insert_before the head makes a node after the head (the prior is the head itself) that leads back to it | insert_before(1, 0) on a list of 1, 2 | 0 in front of 1, as the new head | not executed | LinkedLists.InsertBeforeHeadLoops | LinkedLists.MendedInsertBeforeHead |
| lib/lists/linked_list.rb:69-77 | insert_before a value nothing matches puts the node after the last one but leaves the tail on the old last node | insert_before(9, 0) on a list of 1, 2 | 0 appended as the new tail | not executed | LinkedLists.InsertBeforeAbsentStaleTail | LinkedLists.MendedInsertBeforeAbsent |
| lib/lists/linked_list.rb:80-87 | insert_after a value nothing matches makes an unlinked node the cursor | insert_after(9, 0) on a list of 1, 2 | 0 appended as the new tail | not executed | LinkedLists.InsertAfterAbsentFloats | LinkedLists.MendedInsertAfterAbsent |
| lib/lists/doubly_linked_list.rb:92-99 | insert_after a value nothing matches counts one more and makes an unlinked node the cursor | insert_after(9, 0) on a doubly linked list of 1, 2 | 0 appended as the new tail, linked both ways | not executed | DoublyLinkedLists.InsertAfterAbsentFloats | DoublyLinkedLists.MendedInsertAfterAbsent |
| lib/lists/doubly_linked_list.rb:72-78 | insert after a cursor short of the tail: LinkNode.new with :after sets the cursor's next but not the following node's prev | insert(0) with the cursor on 1 of the doubly linked list 1, 2: the node holding 2 still leads back to 1 | 0 between 1 and 2 on both links | not executed | DoublyLinkedLists.InsertInteriorStalePrev | DoublyLinkedLists.MendedInsertKeepsDoubleLine |
| lib/lists/doubly_linked_list.rb:92-99 | insert_after a node short of the tail sets the match's next but not the following node's prev | insert_after(1, 0) on the doubly linked list 1, 2: the node holding 2 still leads back to 1 | 0 between 1 and 2 on both links | not executed | DoublyLinkedLists.InsertAfterInteriorStalePrev | DoublyLinkedLists.MendedInsertAfterFound |
| lib/lists/doubly_linked_list.rb:82-89 | insert_before a node past the head sets the match's prev but not the previous node's next, so the new node is off the forward line | insert_before(2, 0) on the doubly linked list 1, 2: to_a answers [1, 2] | 0 between 1 and 2 on both links | not executed | DoublyLinkedLists.InsertBeforeInteriorHidden | DoublyLinkedLists.MendedInsertBeforeFound |
| lib/lists/doubly_linked_list.rb:82-89 | insert_before a value nothing matches makes an unlinked node and counts it | insert_before(9, 0) on the doubly linked list 1, 2: size 3, to_a [1, 2] | 0 appended as the new tail, linked both ways | not executed | DoublyLinkedLists.InsertBeforeAbsent | DoublyLinkedLists.MendedInsertBeforeAbsent |
| lib/lists/circular_linked_list.rb:74-86 | insert after a cursor short of the tail: LinkNode.new with :circle_after sets the cursor's next but not the following node's prev | insert(0) with the cursor on 1 of the ring 1, 2: the node holding 2 still leads back to 1 | 0 between 1 and 2 on both links | not executed | CircularLinkedLists.InsertInteriorStaleRing | CircularLinkedLists.MendedInsertKeepsRing |
| lib/lists/circular_linked_list.rb:106-119 | insert_after a node short of the tail sets the match's next but not the following node's prev | insert_after(1, 0) on the ring 1, 2: the node holding 2 still leads back to 1 | 0 between 1 and 2 on both links | not executed | CircularLinkedLists.InsertAfterInteriorStaleRing | CircularLinkedLists.MendedInsertAfterFoundRing |
| lib/lists/circular_linked_list.rb:106-119 | insert_after a value nothing matches makes a ring of one of its own, counts it and makes it the cursor | insert_after(9, 0) on the ring 1, 2: size 3, to_a [1, 2] | 0 appended to the ring as the new tail | not executed | CircularLinkedLists.InsertAfterAbsentOwnRing | CircularLinkedLists.MendedInsertAfterAbsentRing |
| lib/lists/circular_linked_list.rb:90-103 | insert_before a node past the head sets the match's prev but not the previous node's next, so the new node is off the ring of next links | insert_before(2, 0) on the ring 1, 2: to_a answers [1, 2] | 0 between 1 and 2 on both links | not executed | CircularLinkedLists.InsertBeforeInteriorHiddenRing | CircularLinkedLists.MendedInsertBeforeFoundRing |
| lib/lists/circular_linked_list.rb:90-103 | insert_before a value nothing matches makes a ring of one of its own, counts it and makes it the cursor | insert_before(9, 0) on the ring 1, 2: size 3, to_a [1, 2] | 0 appended to the ring as the new tail | not executed | CircularLinkedLists.InsertBeforeAbsentOwnRing | CircularLinkedLists.MendedInsertBeforeAbsentRing |
| lib/lists/linked_list.rb:90-97 | remove decrements size whether or not the value is found | remove(9) on a list of 1, 2 answers 1 | size unchanged when nothing is removed | not executed | LinkedLists.RemoveAbsentShrinks | LinkedLists.MendedRemoveAbsent |
| lib/lists/linked_list.rb:90-97 | remove of the tail of a longer list sets the tail to nil, the removed node's next | remove(2) on a list of 1, 2 | the node before the tail becomes the tail | not executed | LinkedLists.RemoveTailLosesTail | LinkedLists.MendedRemoveTail |
| lib/lists/linked_list.rb:59-65 | insert sets the tail only when the cursor is the tail, and remove leaves the cursor on a removed node | remove(1) then insert(5) on a list of 1: no tail | an insert into a list without nodes makes head, tail and cursor | not executed | LinkedLists.InsertStaleCursorLosesTail | LinkedLists.MendedInsertKeepsLine |
| lib/binary_tree/node.rb:47-53 | `left.push(v) or self.left = Node.new(v)`: a push answering false for a held value replaces the child by a leaf | push(3) on 5 over 3 over 1 drops the Node holding 1 | a new leaf only in an empty slot | not executed | BinaryTrees.PushedHeldBelowDrops | BinaryTrees.MendedPushedBelowKeeps |
| lib/heaps.rb:238-240 | to_a sends `to_a` to the root, which only EmptyNode defines, so merge, merge! and union raise on every heap with nodes | MinimumHeap.new([["a", 1]]).to_a raises NoMethodError | the root's dfs_pre_order, with [] for an EmptyNode root | not executed | MinimumHeaps.MinimumHeap.ToA | MinimumHeaps.MinimumHeap.MendedToA |
| lib/heaps/heap_base.rb:199-201 | to_a sends `dfs_pre_order` to the root, which EmptyNode does not define, so to_a, merge, merge! and union! raise on an empty heap | HeapBase.new.merge(HeapBase.new([["a", 1]])) raises NoMethodError | [] for an empty heap, as the EmptyNode examples of spec/heap_commons_examples.rb:133-135 expect | not executed | HeapRoots.EmptyListingRaises | HeapRoots.MendedListingContents |
| lib/heaps/node.rb:88-104 | move_down compares with the ascending `Node#>`, so remove from a maximum heap leaves a smaller record above a greater one | pop on the maximum heap 3 over 1 and 2 | sift down by the heap's own comparator | not executed | HeapOrders.MaxPopLosesTop | HeapOrders.ReheapedOrders |
| lib/heaps/heap_base.rb:318-339 | remove only sifts down, but the last leaf moved into an inner slot can rank above that slot's parent | delete!(27) on the minimum heap 8, 11, 20, 13, 21, 27, 32, 19 (level order) leaves 19 below 20 | sift up when the moved record ranks above its new parent | not executed | HeapOrders.InnerDeleteBreaksOrder | HeapOrders.ReheapedOrders |
| lib/heaps/heap_base.rb:283-314 | balance_subtree compares with the ascending `Node#>` whatever the heap's comparator, so push onto a maximum heap can leave a smaller record above a greater one | push of 30 onto the maximum heap 100; 40, 20; 10, 35 (level order) leaves 35 below 30 | sift up by the heap's own comparator | not executed | HeapOrders.MaxPushBreaksOrder | HeapOrders.PushedSiftUpOrders |
