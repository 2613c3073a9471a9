# Graphs, trees and containers — a Dafny model

This project models the graph library of the DataStructures repository and the containers it is built on.

- **Graph.** A `Graph` keeps a table of nodes keyed by id. Each node lists its outgoing edges (`children`) and incoming edges (`parents`) as `Neighbor` entries carrying the other endpoint and the edge weight.
  - The graph is either weighted or unweighted. An unweighted graph marks every edge with weight -1.
  - Operations: insert edges and nodes in their many overloads, remove edges and nodes, swap two nodes, transpose.
  - Algorithms:
    - depth-first and breadth-first searches, with an optional callback that can stop them;
    - a multi-directional search that stops where searches from several sources meet;
    - topological sort;
    - post-order and forest searches;
    - Kosaraju's strongly connected components;
    - Dijkstra's algorithm with the shortest path read back from it.
- **Trees.** `Tree` restricts a graph to one parent per node and validates that it has a root reaching every node. `BinaryTree` adds at most two children per node and pre-, in- and post-order traversals. `BinarySearchTree` keeps a number per node, inserts by descending from the root, and validates that the in-order traversal is strictly increasing.
- **Containers.** The singly and doubly linked lists, the stack, the queue and the chained hash table.

The model follows the code as written, except where "## Left out" says otherwise. Two exceptions matter most:
- the breadth-first traversals run on an ideal first-in first-out queue;
- the algorithms' local hash tables are maps.

The stranded queue's effect on the breadth-first search is modelled separately, and "## Findings" states it. The model keeps behaviour that looks unintended:
- the weighted edge-array insert only walks entries whose child is empty, and creates a node named `""`;
- `init_edges` for weighted records links any weight other than -1, negative ones included;
- `HashTable::get` loops forever when the first item of a bucket does not match;
- `HashTable::remove` only looks at the first two items of a bucket;
- the queue is stranded after its last element is dequeued;
- `lchild` re-tests the first child slot;
- a stack's `size` counts pushes and is never decremented.

Each of these is stated and proved as behaviour of the model.

Structure:
- `graph_store.dfy` holds the node table as a value (`Adjacency`) and the pure edge operations: add, remove, detach, transpose, swap.
- `graph.dfy` holds the `Graph` class whose methods update that table in place.
- `paths.dfy` defines walks, reachability, cycles and topological orders.
- Each traversal algorithm is a module of methods over the table, one loop or recursion per source loop or recursion.
- `breadth_stranded.dfy` runs the single-source breadth-first search on the queue as written.
- `tree.dfy`, `binary.dfy` and `search_tree.dfy` layer the tree classes over `Graph` by composition.
- The containers are classes over linked cells (`nodes.dfy`) with a ghost view of their contents. The hash table is an array of bucket sequences.

## Model

| member | source | states |
|---|---|---|
| Graphs.Graph.constructor | DataStructures/Graphs/graph.cpp:5-20 | a new graph has the given weightedness, no nodes, no ids and a zero count |
| Graphs.WithNodeWellFormed | DataStructures/Graphs/graph.cpp:204-208 | adding a node keeps the table well formed (edges mirrored, no duplicates) and adds no edge |
| Graphs.Graph.ValidateWeight | DataStructures/Graphs/graph.cpp:511-521 | passes exactly when the call's weightedness matches the graph's; otherwise names the mismatch (weighted edge in unweighted graph or the reverse) |
| Graphs.Graph.CheckMakeEdge | DataStructures/Graphs/graph.cpp:109-130 | a weight that does not match the graph fails; a matching call fails only for a missing parent or child, the parent being checked first; a pass with a usable weight means both nodes exist |
| Graphs.Graph.MakeEdge | DataStructures/Graphs/graph.cpp:133-150 | on failure the table is unchanged; otherwise it is the old table with the edge added on both sides, no entry duplicated; ids and count unchanged |
| Graphs.Graph.CreateNode | DataStructures/Graphs/graph.cpp:622-628 | the new id maps to a node without edges, is appended to `ids`, and the count grows by one |
| Graphs.Graph.InsertNode | DataStructures/Graphs/graph.cpp:204-208 | a missing node is created and listed; an existing one leaves the graph unchanged |
| Graphs.Graph.Insert | DataStructures/Graphs/graph.cpp:189-201 | fails exactly on a weighted graph; a missing parent leaves the graph unchanged; otherwise the child is created if needed and the unweighted edge added |
| Graphs.Graph.InsertWeighted | DataStructures/Graphs/graph.cpp:231-245 | fails exactly on an unweighted graph; a negative weight or missing parent changes nothing; otherwise the child is created if needed and the weighted edge added |
| Graphs.Graph.InsertWeightedEdge | DataStructures/Graphs/graph.cpp:222-228 | fails exactly on an unweighted graph; a negative weight or a missing parent changes nothing; otherwise the child is created and appended to the ids if absent, and the weighted edge added |
| Graphs.Graph.InsertChildren | DataStructures/Graphs/graph.cpp:165-174 | fails exactly on a weighted graph, changing nothing; otherwise the state is the insert of each child before the `""` sentinel in turn; with an existing parent the new nodes are exactly the listed children, their new ids are appended in first-listed order, and the only new edges run from the parent to each of them |
| Graphs.Graph.InsertParents | DataStructures/Graphs/graph.cpp:177-186 | fails exactly on a weighted graph, changing nothing; otherwise the state is the insert under each listed parent in turn; the child is created (and its id appended) exactly when some listed parent exists, and the only new edges run to the child from the parents that are nodes at their turn |
| Graphs.Graph.InsertWithNeighbors | DataStructures/Graphs/graph.cpp:153-162 | fails exactly on a weighted graph, changing nothing; otherwise the state is the node's creation followed by the parents' and the children's inserts; the new nodes are the node and the listed children, with ids appended in that order, and the only new edges run to the node from listed parents that are nodes and from the node to every listed child |
| Graphs.Graph.InsertWeightedEdges | DataStructures/Graphs/graph.cpp:211-219 | fails exactly on an unweighted graph, changing nothing; otherwise the state is the weighted insert of each leading record whose child is `""`; node `""` is created exactly when one of them has a usable weight and an existing parent, and the only new edges run to `""` from such parents |
| Graphs.Graph.InitEdges | DataStructures/Graphs/graph.cpp:597-612 | fails on an unweighted graph, changing nothing; otherwise walks the records before the first `""` child, making each edge the parent does not already have; a record of weight -1 whose edge is absent ends it with that failure; no node or id is added |
| Graphs.ChildrenEffect | DataStructures/Graphs/graph.cpp:165-174 | the children insert keeps the table well formed and the ids listing each node once; without the parent it is a no-op; with it the nodes grow by exactly the listed children and the edges by exactly parent-to-child |
| Graphs.SameChildEffect | DataStructures/Graphs/graph.cpp:177-186 | records sharing one child keep the graph consistent; the child is added exactly when some usable record's parent exists, and the new edges are exactly those from parents that exist at their turn |
| Graphs.NeighborsEffect | DataStructures/Graphs/graph.cpp:153-162 | the node-with-neighbours insert keeps the graph consistent; the new nodes are the node and the listed children, and the new edges are exactly parents-to-node and node-to-children |
| Graphs.EdgesLinkedEffect | DataStructures/Graphs/graph.cpp:597-612 | the weighted edge initialisation keeps the nodes and well-formedness and loses no edge; every new edge is listed; it fails only when some record has weight -1, and without one every listed edge is present afterwards |
| Graphs.Graph.RemoveEdge | DataStructures/Graphs/graph.cpp:248-253 | with both endpoints present the table loses exactly that edge on both sides; otherwise nothing changes; well-formedness is kept |
| Graphs.Graph.RemoveNode | DataStructures/Graphs/graph.cpp:652-678 | the node and every edge touching it are gone, its id is dropped from `ids` and the count falls by one |
| Graphs.Graph.SwapNodes | DataStructures/Graphs/graph.cpp:681-691 | the table is the old one with the two ids exchanged everywhere; ids and count unchanged |
| Graphs.Graph.Transpose | DataStructures/Graphs/graph.cpp:423-437 | the table becomes its transpose (children and parents exchanged at every node) |
| GraphStore.RemoveId | DataStructures/Graphs/graph.cpp:637-649 | the list keeps exactly the entries not naming the id |
| GraphStore.GetId | DataStructures/Graphs/graph.cpp:498-503 | finds an entry naming the id exactly when the list contains one |
| GraphStore.GetIdDistinct | DataStructures/Graphs/graph.cpp:498-503 | in a list with distinct ids, looking up an entry's id returns that entry |
| GraphStore.AddEdgeEffect | DataStructures/Graphs/graph.cpp:133-150 | adding an edge keeps the table well formed and its node set, records the edge on both sides, and changes nothing when the edge already exists |
| GraphStore.AddEdgeIdempotent | DataStructures/Graphs/graph.cpp:146-149 | adding the same edge twice, whatever the second weight, equals adding it once |
| GraphStore.AddEdgeEdges | DataStructures/Graphs/graph.cpp:133-150 | the edges afterwards are the old edges plus the new one |
| GraphStore.WithoutEdgeWellFormed | DataStructures/Graphs/graph.cpp:637-649 | removing an edge keeps the table well formed |
| GraphStore.WithoutEdgeEdges | DataStructures/Graphs/graph.cpp:637-649 | the edges afterwards are the old edges minus exactly the removed one, over the same nodes |
| GraphStore.DetachedWellFormed | DataStructures/Graphs/graph.cpp:652-678 | removing a node and its edges keeps the table well formed |
| GraphStore.DetachedEdges | DataStructures/Graphs/graph.cpp:652-678 | the edges afterwards are exactly the old edges not touching the removed node |
| GraphStore.TransposeInvolution | DataStructures/Graphs/graph.cpp:423-437 | transposing twice gives back the table |
| GraphStore.TransposeWellFormed | DataStructures/Graphs/graph.cpp:423-437 | the transpose of a well-formed table is well formed |
| GraphStore.TransposeEdges | DataStructures/Graphs/graph.cpp:423-437 | the transpose has an edge u to v exactly when the table has v to u |
| GraphStore.SwapInvolution | DataStructures/Graphs/graph.cpp:681-691 | swapping the same two nodes twice gives back the table |
| GraphStore.SwapWellFormed | DataStructures/Graphs/graph.cpp:681-691 | swapping keeps the table well formed |
| GraphStore.SwapEdges | DataStructures/Graphs/graph.cpp:681-691 | the swapped table has an edge exactly where the old one has it between the exchanged ids |
| DepthTraversal.DoNothing | DataStructures/Graphs/graph.h:650 | the default callback never asks to stop |
| DepthTraversal.DepthVisit | DataStructures/Graphs/graph.cpp:694-711 | a node already in the memo, or refused by the component policy, stops the descent and leaves the memo; otherwise it is appended and the descent stops exactly when the callback says so |
| DepthTraversal.DepthTraverse | DataStructures/Graphs/graph.h:389-408 | the memo only grows, by nodes reachable from the start that the policy admits, the start first; every child of an expanded new node is covered |
| DepthTraversal.DepthFirstSearch | DataStructures/Graphs/graph.cpp:714-738 | the start is in the memo and heads what was added; without a callback and from an empty memo the memo holds exactly the nodes reachable from the start |
| DepthTraversal.SearchFindsAll | DataStructures/Graphs/graph.cpp:714-738 | a search that never stops and covers every expanded node records exactly the reachable nodes |
| DepthTraversal.KosarajuSearch | DataStructures/Graphs/graph.cpp:952-979 | everything added lies in `currNodes` and not in `seen`, is reachable from the start, and the start heads it when admissible |
| TopologicalSort.SortFrom | DataStructures/Graphs/graph.cpp:754-773 | a failure means the graph has a cycle; a success finishes the current node after all its descendants and keeps the path/seen bookkeeping |
| TopologicalSort.TopologicalSort | DataStructures/Graphs/graph.cpp:778-798 | a cyclic graph yields an empty list; an acyclic one yields every node once, each before all its children |
| PostOrder.PostOrderSearch | DataStructures/Graphs/graph.cpp:801-813 | nodes are added after all their unseen descendants, the start last |
| PostOrder.PostOrderAcyclic | DataStructures/Graphs/graph.cpp:801-813 | in an acyclic graph every child of an added node was seen before or added earlier |
| PostOrder.FurthestParent | DataStructures/Graphs/graph.cpp:838-874 | the returned distance is the length of a longest parent chain that avoids the path, and when no node has the empty id the returned id ends that chain |
| PostOrder.FurthestAncestor | DataStructures/Graphs/graph.cpp:877-899 | the chosen tree root is a node that reaches the given node |
| PostOrder.ForestPostOrder | DataStructures/Graphs/graph.cpp:816-835 | the trees partition the nodes, and every node of a tree is reachable from the tree's root, which ends it |
| PostOrder.ForestDepthFirstSearch | DataStructures/Graphs/graph.cpp:877-899 | without a callback the forest finishes; a finished forest partitions the nodes, every tree reachable from its first node |
| Kosaraju.Components | DataStructures/Graphs/graph.cpp:903-926 | the components partition the nodes, and in the table searched (the transpose) each component's first node reaches all its members |
| Kosaraju.TransposedReach | DataStructures/Graphs/graph.cpp:903-926 | reaching v from u in the transpose means reaching u from v in the graph |
| Kosaraju.KosarajusAlgorithm | DataStructures/Graphs/graph.cpp:903-926 | the graph is restored after the two transposes; the output partitions the nodes, and every member of a component reaches the component's first node |
| BreadthTraversal.CommonNode | DataStructures/Graphs/graph.h:582-600 | a node is found exactly when every source's path table shares one, and the found node is in all of them |
| BreadthTraversal.BreadthVisit | DataStructures/Graphs/graph.h:479-504 | a visited node, or one the callback stops on, changes nothing; a new node is queued and marked visited, recorded or given its path; the stop answer is the callback's, or whether the sources now meet |
| BreadthTraversal.AnyQueued | DataStructures/Graphs/graph.h:444-450 | true exactly when some source's queue is non-empty |
| BreadthTraversal.AllReached | DataStructures/Graphs/graph.h:452-474 | once every queue is drained, each source has visited exactly the nodes it reaches |
| BreadthTraversal.BreadthTraverse | DataStructures/Graphs/graph.h:425-475 | the traversal invariant holds at the end; a stop is justified by the policy; without a stop each source visited exactly its reachable nodes and the sources never met |
| BreadthTraversal.BreadthFirstSearchFrom | DataStructures/Graphs/graph.h:511-540 | each memo grows by nodes in breadth-first order from its source; when no callback stops, each records exactly its reachable nodes |
| BreadthTraversal.BreadthFirstSearch | DataStructures/Graphs/graph.cpp:741-751 | the memo gains distinct reachable nodes the callback lets through, the start first; without a callback it gains exactly the reachable nodes |
| BreadthTraversal.MultiDirectionalSearch | DataStructures/Graphs/graph.h:613-647 | a meeting is reported exactly when there are at least two sources and some node is reached by all; the reported paths run from each source to one common node |
| StrandedBreadth.StrandedSearch | DataStructures/Graphs/graph.h:425-475 | on the queue as written, the memo gains the start (unless the callback stops there), then the start's distinct children in list order up to the first one the callback stops at, and nothing further |
| StrandedBreadth.StrandedRecorded | DataStructures/Graphs/graph.h:479-504 | what the stranded search records is distinct, reachable from the start, accepted by the callback and headed by the start |
| StrandedBreadth.StrandedMissesGrandchild | DataStructures/queue.h:33-42 | on the chain a to b to c, without a callback, the search from a records only a and b although c is reachable |
| ShortestPaths.RouteSnoc | DataStructures/Graphs/graph.cpp:1008-1021 | extending a route by a child edge adds that edge's weight |
| ShortestPaths.TriangleBoundsRoutes | DataStructures/Graphs/graph.cpp:1008-1021 | when no edge can be relaxed, the label of a route's end is at most the label of its start plus the route's weight |
| ShortestPaths.FirstMin | DataStructures/Graphs/graph.cpp:1004 | the popped entry has a least distance, and no earlier entry has the same distance |
| ShortestPaths.Update | DataStructures/Graphs/graph.cpp:1018 | the entry of the given id gets the new distance and no other entry changes |
| ShortestPaths.Initialise | DataStructures/Graphs/graph.cpp:985-1002 | the start is at distance 0 and its own predecessor; every other node is at infinity with an empty predecessor; all are queued |
| ShortestPaths.Dijkstra | DataStructures/Graphs/graph.cpp:982-1023 | every label is consistent; with non-negative weights the start is at 0, no edge can be relaxed and every finite label is met by its predecessor chain |
| ShortestPaths.PredecessorWalk | DataStructures/Graphs/graph.cpp:492-497 | the walk from the end back along predecessors is a distinct chain of edges; with non-negative weights it reaches the start with the end's distance, or is just the end when it is unreachable |
| ShortestPaths.WeighChain | DataStructures/Graphs/graph.cpp:498-503 | the weight summed over the walk's parent entries |
| ShortestPaths.ShortestPath | DataStructures/Graphs/graph.cpp:488-508 | the returned path is a walk to the end with the returned weight; with non-negative weights it is a lightest route from the start, or the end alone at weight 0 when none exists |
| ShortestPaths.ShortestPathOptimal | DataStructures/Graphs/graph.cpp:488-508 | a path read off relaxed labels is no heavier than any route from the start, or proves no route exists |
| Trees.InsertCheck | DataStructures/Graphs/tree.cpp:131-140 | passes exactly when the child is new, the parent exists and (for a binary tree) has fewer than two children; names the failing condition |
| Trees.IsValidTreeEdge | DataStructures/Graphs/tree.cpp:76-83 | fails exactly when the child already has a parent |
| Trees.IsValidBinaryTreeEdge | DataStructures/Graphs/binary_tree.cpp:84-94 | fails exactly when the parent already has two children |
| Trees.CheckedEdgeKeepsShape | DataStructures/Graphs/tree.cpp:76-83 | an edge that passes the checks keeps every node to one parent and two children |
| Trees.LeafShape | DataStructures/Graphs/tree.cpp:20-26 | hanging a new leaf keeps the table well formed, adds exactly the one edge, and keeps the single-parent and two-children shapes |
| Trees.LeafAcyclic | DataStructures/Graphs/tree.cpp:20-26 | hanging a new leaf creates no cycle |
| Trees.LeafRooted | DataStructures/Graphs/tree.cpp:20-26 | the root still reaches every node after a leaf is hung |
| Trees.LeafRemovalShape | DataStructures/Graphs/tree.cpp:36-49 | removing a childless node keeps the shapes and acyclicity |
| Trees.LeafRemovalRooted | DataStructures/Graphs/tree.cpp:36-49 | removing a childless node other than the root keeps the root |
| Trees.RootUnique | DataStructures/Graphs/tree.cpp:91-110 | an acyclic graph has at most one node reaching every node |
| Trees.RootCount | DataStructures/Graphs/tree.cpp:91-110 | the depth-first search from a node has as many nodes as the graph exactly when that node is a root |
| Trees.Tree.constructor | DataStructures/Graphs/tree.cpp:3-13 | a new tree has an empty graph of the given weightedness and no root |
| Trees.Tree.Insert | DataStructures/Graphs/tree.cpp:20-26 | fails on a weighted tree or as the insert check says; otherwise the child becomes a new leaf under the parent |
| Trees.Tree.InsertWeighted | DataStructures/Graphs/tree.cpp:28-33 | fails on an unweighted tree or as the insert check says; otherwise the child is created and linked with the weight, or only created when the weight is -1 |
| Trees.Tree.RemoveNode | DataStructures/Graphs/tree.cpp:36-49 | a node with children is kept; otherwise it is removed and the root cleared if it was the root |
| Trees.Tree.ValidateTree | DataStructures/Graphs/tree.cpp:91-110 | reports a cycle exactly for a cyclic or empty graph, passes exactly for an acyclic graph with a root, and then records that root |
| Trees.Tree.ForestDepthFirstSearch | DataStructures/Graphs/tree.cpp:143-151 | appends one tree, headed by the root; without a callback it holds exactly the nodes the root reaches |
| Trees.Tree.ForestPostOrder | DataStructures/Graphs/tree.cpp:154-161 | appends one tree ending with the root and holding exactly the nodes the root reaches |
| BinaryTrees.Child1 | DataStructures/Graphs/binary_tree_node.cpp:9-16 | the first child entry, present exactly when the node has a child |
| BinaryTrees.Child2 | DataStructures/Graphs/binary_tree_node.cpp:19-26 | the second child entry, present exactly when the node has two children |
| BinaryTrees.ChildSlots | DataStructures/Graphs/binary_tree_node.cpp:9-26 | in a node with at most two children, every child is in one of the two slots |
| BinaryTrees.ChildBelow | DataStructures/Graphs/binary_tree.cpp:123-147 | in an acyclic graph a child's descendants are strictly fewer than its parent's, and exclude the parent |
| BinaryTrees.SubtreesDisjoint | DataStructures/Graphs/binary_tree.cpp:132-138 | in a single-parent acyclic graph, two different children have disjoint subtrees |
| BinaryTrees.Traversal | DataStructures/Graphs/binary_tree.cpp:123-147 | the traversal contains its node, first in pre-order and last in post-order |
| BinaryTrees.TraversalWithin | DataStructures/Graphs/binary_tree.cpp:123-147 | every listed node is a descendant of the start |
| BinaryTrees.TraversalCovers | DataStructures/Graphs/binary_tree.cpp:123-147 | in a binary tree every descendant of the start is listed |
| BinaryTrees.TraversalsPermute | DataStructures/Graphs/binary_tree.cpp:123-147 | the three orders list the same nodes with the same multiplicities |
| BinaryTrees.TraversalDistinct | DataStructures/Graphs/binary_tree.cpp:123-147 | in a single-parent acyclic graph no node is listed twice |
| SearchTrees.LChild | DataStructures/Graphs/binary_search_tree_node.cpp:12-22 | as written: the first child when its number is below the node's, and never the second child (the second test re-examines the first slot) |
| SearchTrees.RChild | DataStructures/Graphs/binary_search_tree_node.cpp:25-35 | the first child whose number is at least the node's, checking the first slot then the second; none when neither qualifies |
| SearchTrees.Descend | DataStructures/Graphs/binary_search_tree.cpp:114-134 | the descent ends at a node reachable from the start whose side for the new number (left when smaller) is free |
| SearchTrees.NewNodeAcyclic | DataStructures/Graphs/binary_search_tree.cpp:155-161 | creating a node keeps the table well formed and acyclic |
| SearchTrees.IsValidBinarySearchTreeEdge | DataStructures/Graphs/binary_search_tree.cpp:210-231 | passes exactly when the child's side of the parent is free; the error names the occupied side |
| SearchTrees.IncreasingPairwise | DataStructures/Graphs/binary_search_tree.cpp:248-267 | a list increasing at neighbours is increasing between any two positions |
| SearchTrees.ListedNumbered | DataStructures/Graphs/binary_search_tree.cpp:248-267 | every node the in-order traversal lists carries a number |
| SearchTrees.EqualNumbersRejected | DataStructures/Graphs/binary_search_tree.cpp:248-267 | two distinct reachable nodes with equal numbers make the in-order traversal fail the strict order |
| SearchTrees.SearchTree.constructor | DataStructures/Graphs/binary_search_tree.cpp:3-13 | a new search tree has an empty binary tree of the given weightedness, no numbers and no root |
| SearchTrees.SearchTree.Insert | DataStructures/Graphs/binary_search_tree.cpp:98-135 | a weighted tree ignores a negative weight; otherwise the node is created with its number, becomes the root of an empty tree, or is linked below the node the descent ends at, unless the weight does not fit the tree |
| SearchTrees.SearchTree.Link | DataStructures/Graphs/binary_search_tree.cpp:114-134 | the loop ends at the node the descent specifies and links the new node there |
| SearchTrees.SearchTree.ValidateOrder | DataStructures/Graphs/binary_search_tree.cpp:248-267 | passes exactly when the in-order numbers are strictly increasing, and otherwise reports the order |
| SearchTrees.SearchTree.ValidateGraph | DataStructures/Graphs/binary_search_tree.cpp:234-245 | passes exactly for an acyclic rooted tree whose in-order numbers strictly increase. It fails with a cycle exactly for a cyclic or empty table, and with a disconnection exactly for an acyclic non-empty table with no root; both keep the old root. It fails with an order error exactly when the root was found and recorded but the in-order numbers do not strictly increase |
| SearchTrees.ThirdChildBelow | DataStructures/Graphs/binary_search_tree.cpp:114-134 | a root whose second child is its right child, given a smaller number, ends the descent at the root and gets a third child |
| SearchTrees.ThirdChild | DataStructures/Graphs/binary_search_tree_node.cpp:12-22 | a concrete tree (root 5 with children 7 and 3) where inserting 2 gives the root three children |
| Nodes.RemoveFirst | DataStructures/hash.h:117-134 | removing a value that occurs leaves a sequence one shorter; removing an absent value leaves it unchanged |
| Nodes.RemoveFirstCounts | DataStructures/hash.h:117-134 | removal takes exactly one copy of the value out of the multiset of elements, or none when it is absent |
| Nodes.RemoveFirstAt | DataStructures/hash.h:117-134 | removing the first occurrence cuts the sequence at that position |
| Stacks.Stack.constructor | DataStructures/stack.h:15 | a new stack is empty with size 0 |
| Stacks.Stack.Push | DataStructures/stack.h:17-30 | the element goes on top and the size grows by one |
| Stacks.Stack.Pop | DataStructures/stack.h:33-40 | returns the top element and leaves the rest; the size is not changed |
| Stacks.PushAllShape | DataStructures/stack.h:17-30 | pushing a sequence puts it on top reversed and adds its length to the size |
| Stacks.PopAllShape | DataStructures/stack.h:33-40 | popping n elements returns the top n in order and keeps the size |
| Stacks.LastInFirstOut | DataStructures/stack.h:17-40 | popping what was pushed returns it reversed and leaves the old elements |
| Stacks.SizeCountsPushes | DataStructures/stack.h:17-40 | after any safe run of pushes and pops the size has grown by the pushes alone, while the element count is pushes minus pops |
| Queues.Queue.constructor | DataStructures/queue.h:18 | a new queue is empty and not stranded |
| Queues.Queue.Enqueue | DataStructures/queue.h:20-31 | the element is appended at the back, except that a stranded queue drops it |
| Queues.Queue.Dequeue | DataStructures/queue.h:33-42 | returns nothing from an empty queue, otherwise the front element; taking the last one strands the queue |
| Queues.ReachableKept | DataStructures/queue.h:20-42 | enqueue and dequeue keep a stranded queue empty |
| Queues.EnqueueAllAppends | DataStructures/queue.h:20-31 | enqueuing a sequence on a queue that is not stranded appends it in order |
| Queues.DequeueAllShape | DataStructures/queue.h:33-42 | dequeuing n elements returns the front n in order |
| Queues.FirstInFirstOut | DataStructures/queue.h:20-42 | a new queue returns what it is given in the same order, and is stranded after the last dequeue |
| Queues.StrandedLosesAll | DataStructures/queue.h:20-42 | a stranded queue keeps nothing: every later dequeue returns nothing |
| Lists.SinglyLinkedList.constructor | DataStructures/lists.h:17 | a new list is empty with size 0 |
| Lists.SinglyLinkedList.Append | DataStructures/lists.h:19-34 | the element is appended at the tail and the size grows by one |
| Lists.SinglyLinkedList.Remove | DataStructures/lists.h:55-87 | the first occurrence is unlinked; the size falls only when it was not the head; the tail moves back when the tail cell goes |
| Lists.DoublyLinkedList.constructor | DataStructures/lists.h:102 | a new list is empty with size 0 |
| Lists.DoublyLinkedList.Append | DataStructures/lists.h:105-120 | the element is appended at the tail, linked back to the old tail, and the size grows by one |
| Lists.DoublyLinkedList.Remove | DataStructures/lists.h:141-170 | a head match is unlinked; otherwise only cells before the tail are searched; the tail pointer never moves |
| Lists.AppendThenRemove | DataStructures/lists.h:55-87 | removing what was just appended restores a singly linked list; a doubly linked list keeps it |
| Lists.RemovalsAgree | DataStructures/lists.h:55-170 | the two removals differ exactly when the value first occurs only in the last cell, after the head |
| Lists.HeadRemovalLeavesSize | DataStructures/lists.h:55-87 | a head removal leaves the size as it was, so the gap between size and element count grows by one; any other removal keeps the gap |
| Hashing.Signed | DataStructures/hash.h:51 | a byte read as a signed char, in -128..127 and equal to the byte modulo 256 |
| Hashing.HashOf | DataStructures/hash.h:46-56 | the 64-bit wrapped, position-weighted byte sum, reduced below the table size |
| Hashing.BucketFind | DataStructures/hash.h:101-106 | the value of an item carrying the key, or nothing when no item carries it |
| Hashing.Lookup | DataStructures/hash.h:91-107 | as written: a missing bucket gives nothing; a bucket whose head carries another key never returns; otherwise the head's value |
| Hashing.BucketRemoved | DataStructures/hash.h:139-158 | the head, or else the second item, goes when it carries the key; later items are never examined |
| Hashing.HashTable.constructor | DataStructures/hash.h:37-43 | size N, or 256 for N = 0, with every slot null, no items and no indices |
| Hashing.HashTable.Hash | DataStructures/hash.h:46-56 | the slot index of the key, below the size |
| Hashing.HashTable.Put | DataStructures/hash.h:59-88 | the key's slot gets a one-item bucket if it was null; otherwise the first item carrying the key is replaced in place, or the item is appended at the tail. Every other slot is unchanged. The key maps to the value and every other key keeps its value; the count grows exactly for a new key; a new bucket's slot is recorded in the indices |
| Hashing.KeyAt | DataStructures/hash.h:76-83 | the position of the first item carrying the key, or the bucket's length when none does |
| Hashing.PutFind | DataStructures/hash.h:59-88 | the bucket `put` leaves maps the key to the value and every other key as before, and is one item longer exactly when the key was absent |
| Hashing.PutThenGet | DataStructures/hash.h:59-107 | a `get` right after a `put` of the same key returns the value when the bucket was empty or headed by that key, and never returns otherwise |
| Hashing.HashTable.Get | DataStructures/hash.h:91-107 | a returning call gives what the table maps the key to; it loops forever exactly when the bucket's head carries another key |
| Hashing.HashTable.Remove | DataStructures/hash.h:110-159 | the slot's first index entry goes; the key's bucket loses the head, or else the second item, when it carries the key, and every other slot is unchanged; the key is unmapped and counted down exactly when it is in the first two items; every other key is unchanged |
| Hashing.ReplacedFind | DataStructures/hash.h:76-83 | replacing the value of the first item with a key maps that key to the new value and changes nothing else |
| Hashing.AppendedFind | DataStructures/hash.h:84-85 | appending an item with a new key maps that key and changes nothing else |
| Hashing.RemovedFind | DataStructures/hash.h:139-158 | removal unmaps the key exactly when it was in the first two items, and keeps every other key |

## Left out

- Console output, `to_string`, `info`, titles and the type strings set by the constructors are not modelled. Neither are the `graphIds` counter or the `std::vector` adapter overloads of the searches.
- Memory management (`new`/`delete`, leaked copies) is not modelled.
- Exceptions (`std::invalid_argument`) are modelled as failing outcomes. The state at the point of the throw is kept.
- Weights, distances and search-tree numbers are `double` in the source and integers here. `INFINITY` is a separate `Inf` distance.
- `initialize` and `init_nodes` are not modelled. They only sequence node creation, `init_edges` and `validate_graph`.
- The two `init_edges` overloads over id pairs (graph.cpp:567-594) are not modelled. They are `Graphs.Graph.InitEdges` on unweighted pairs, each pair passed to `make_edge` with weight -1.
- `is_valid_edge` is a no-op on `Graph` (graph.cpp:555-557), so `Graphs.Graph.InitEdges` does not call it. The tree classes' overrides are modelled as `Trees.IsValidTreeEdge`, `Trees.IsValidBinaryTreeEdge` and `SearchTrees.IsValidBinarySearchTreeEdge`.
- `init_edges` on a `Tree`, `BinaryTree` or `BinarySearchTree` is not modelled. It is the only caller of those overrides (graph.cpp:575, 590, 607), and it is reached only through `initialize`, which is not modelled either.
- The graph stores its nodes in an ideal map and its id list as a sequence, rather than through `HashTable` and `SmartList`. `SmartList` is not part of this model. The hash table and lists are modelled on their own.
- `BinaryHeap` in Dijkstra's algorithm is an abstract priority queue: pop takes the first entry of least distance, and update changes an entry's distance. Its source is not part of this model.
- Kosaraju.KosarajusAlgorithm: proves that the components partition the nodes and that each member reaches its component's first node. It does not prove that components are exactly the strongly connected sets (mutual reachability inside, none across).
- PostOrder.ForestDepthFirstSearch: a callback that stops a search makes the source loop for ever. Here that is a `Diverges` result, shown only to be impossible without a callback.
- Graphs.Graph.MakeEdge: requires both nodes to exist when a weighted graph is given a negative weight other than -1. The check returns without throwing there, and the source would dereference a missing node.
- Graphs.Graph.RemoveNode: requires the node to exist, and so do `Graphs.Graph.SwapNodes` and `Trees.Tree.RemoveNode`. The source dereferences the node it looks up.
- Graphs.Graph.InsertChildren: requires the empty-string sentinel in the array. The same holds for `InsertParents`, `InsertWithNeighbors` and `InitEdges`, and `InsertWeightedEdges` requires an entry with a non-empty child. The source walks the array until it meets them.
- Graphs.Graph.InitEdges: on a weighted graph it requires both endpoints of every record before the sentinel to be nodes. The source dereferences both lookups.
- Graphs.Graph.constructor: sets `count` to 0. The source declares `size_t count` (graph.h:25) and never initialises it, so its starting value is indeterminate.
- Trees.Tree.constructor: starts from a zero `count`, as `Graphs.Graph.constructor` does. `validate_tree` compares the search size with `count` (tree.cpp:102), so the model's verdict assumes a zero start.
- SearchTrees.SearchTree.constructor: starts from a zero `count` for the same reason.
- BreadthTraversal.BreadthVisit: runs on an ideal first-in first-out queue. As written each queue is stranded after its first element is dequeued, and later enqueues are lost (queue.h:33-42). `StrandedBreadth.StrandedSearch` models that for one source. Its invariant lemma `VisitKeepsSource` also requires, for the multi-directional search, that no node has the id `""`, for the reason given under `MultiDirectionalSearch`.
- BreadthTraversal.AllReached: holds for the ideal queue only. With the stranded queue the search from `a` on a chain `a -> b -> c` never reaches `c` (`StrandedBreadth.StrandedMissesGrandchild`).
- BreadthTraversal.BreadthTraverse: runs on the ideal queue, so its "each source visited exactly its reachable nodes" does not hold for the source as written.
- BreadthTraversal.BreadthFirstSearchFrom: runs on the ideal queue, as `BreadthTraverse` does.
- BreadthTraversal.BreadthFirstSearch: runs on the ideal queue. It is the evidently intended behaviour; `StrandedBreadth.StrandedSearch` is the one as written.
- BreadthTraversal.MultiDirectionalSearch: runs on the ideal queues, and requires no node to have the id `""`. The source passes `""` as the predecessor of each source (graph.h:439) and starts a fresh path table when it sees it (graph.h:567-572), so the children of a node named `""` would have their paths restarted.
- The queue has no `is_empty` and the list no `contains_ref` in the headers given. The traversals read them as "the head is null" and as membership of the id.
- ShortestPaths.ShortestPath: requires the end to be a node whose id is not `""`. The source dereferences the end's lookup, and reads `""` as "no predecessor" (graph.cpp:491-500).
- BinaryTrees.Traversal: requires an acyclic table, and so does `BinaryTrees.SlotTraversal`. The source's recursion does not end on a cycle.
- The local `HashTable`s of the algorithms are maps: Dijkstra's distances and predecessors (graph.cpp:985-1021), `shortest_path`'s `previousPath` (graph.cpp:488-496) and the multi-directional search's path tables (graph.h:567-579). Their size argument (`count`, graph.cpp:467) is not modelled, and neither is `get` spinning on a bucket whose head carries another key (hash.h:100-105).
- Trees.Tree.RemoveNode: requires a root when the node is a leaf. The source compares against `root->id`.
- SearchTrees.SearchTree.Insert: requires the id to be new and the table acyclic. `create_node` is called on an existing id without a check, and the descent does not terminate on a cyclic table.
- The `if (!root)` branch of the search tree's `validate_graph` is unreachable once `validate_tree` passes, so `SearchTrees.SearchTree.ValidateGraph` has no separate case for it.
- The duplicate definitions in `tree.h` and `binary_search_tree.h` (whose `rchild` differs) are not modelled. The `.cpp` definitions are the ones modelled.
- Stacks.Stack.Pop: requires a top cell. The source dereferences `top` on an empty stack.
- Lists.DoublyLinkedList.Remove: requires a second cell when the head does not match. The source reads `fast->next` through a null `fast`.
- Lists.SinglyLinkedList.Remove: requires a head, and so does `Lists.DoublyLinkedList.Remove`. The source reads `head->data` first.
- Hashing.HashTable.Remove: requires a non-empty bucket and a non-empty index list. The source dereferences both heads.
- The hash table's bucket lists are sequences. Their own `size` and `tail` fields are not tracked.
- Hashing.HashOf: the multiplier's own 64-bit wrap only matters for keys of 2^64 characters or more, and is not modelled.
- Hashing.HashTable.Get: modelled as a function with a `Diverges` result, because the source's loop never advances past a non-matching head.

## Findings

| source | as written | input that shows it | evidently intended | confidence | as-written member | corrected member |
|---|---|---|---|---|---|---|
| DataStructures/queue.h:33-42 | `dequeue` clears `head` but not `tail`, so after the breadth-first search dequeues its start, the enqueues of the start's children are lost and the search ends after one round | the chain `a -> b -> c` searched from `a` without a callback records `a, b` | every node reachable from the start is recorded, in breadth-first order | not executed | StrandedBreadth.StrandedMissesGrandchild | BreadthTraversal.BreadthFirstSearch |
