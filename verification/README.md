# ftree-ts tree utilities, modelled in Dafny

This project models the generic tree toolkit of `tree-utils.ts`. It covers four parts:

- rebuilding a forest, or a single tree, from a flat list of records that name their parent by id (`buildTreesFromFlatList`, `buildTreeFromFlatList`);
- the pre-order traversal `visitTree`, which hands each node its ancestor chain and its position among its siblings, in a node-shaped and a value-shaped variant;
- the three consumers of that traversal: `flattenTree`, `findNodes` and `findValues`;
- the descendant counter `countChildren`.

Files and modules:

- `trees.dfy` (`Trees`): the node type.
  - `Leaf(v)` is a node whose `children` field is absent.
  - `Node(v, cs)` is a node with a children array, possibly empty.
  - `Kids` reads an absent array as an empty one.
  - `Size` and `SizeOf` count nodes.
- `traversal.dfy` (`Traversal`): the traversal engine.
  - A visitor is a tagged variant, `NodeVisitor` or `ValueVisitor`.
  - Each holds a pure step function over a state chosen by the caller. Whatever a JavaScript callback would accumulate by side effect is threaded through the calls in the order the engine makes them.
  - `VisitTreeInternal`/`VisitEach` follow the source's recursion and its `forEach`.
  - `Pre` is the pre-order list of calls: node, ancestors, index.
- `addresses.dfy` (`Addresses`): an independent account of pre-order, by address.
  - An address is the list of child positions that leads from the root to a node.
  - `Addrs` lists every address of a tree once, in strict lexicographic order.
  - Call i of `Pre` is made for the i-th address of `Addrs`. It carries the node there, the nodes on the path from the root, and the last position of the address.
- `queries.dfy` (`Queries`): `flattenTree`, `findNodes`, `findValues` and `countChildren`. Each of the first three is stated as a map or a filter over `Pre`.
- `builder.dfy` (`Builder`): the builder.
  - It also lists the records under a parent id in the order a pre-order walk of the built forest meets them (`Descendants`).
  - It proves that flattening a built tree yields the provider's values of those records.
- `roundtrip.dfy` (`RoundTrip`): what a build keeps and what it repeats.
  - `Reaches` follows parent ids upwards from a record, through the records carrying those ids, to a given key.
  - The records listed under a key are exactly the records that reach it. With unique ids, none is listed twice.
  - Under the four conditions below, building a tree and flattening it gives back the value of every record exactly once.
- `scenario.dfy` (`Scenario`): worked examples.
  - Records 1, 2 and 3 under a null root parent id.
  - The empty record list.
  - A filtered count whose filter is not applied to grandchildren.
  - A record whose parent id names no record, which the build drops.
  - Two records that name each other as parent, which no ranking admits.
- `seqs.dfy` (`Seqs`) and `wrappers.dfy` (`Wrappers`): `Map`, `Filter` and their algebra, and `Option`.

Where the behaviour of `countChildren` could be read two ways, the model follows the code. `countChildren` applies its filter to the direct children only. At tree-utils.ts:149 the recursive call is made with no filter. So a child that passes counts itself and every node under it, whether or not those nodes pass the filter. A reading in which the filter prunes at every level describes a different function. `Queries.CountFiltered` states what the code computes, and `Scenario.FilterNotForwarded` shows the difference on a three-level tree.

The round trip "build a tree, flatten it with an identity transform, get every record's value back once" needs four conditions:

- ids are unique;
- exactly one record has `parentId` as its parent id;
- every other parent id names a record of the list;
- there is no cycle among parent ids, not even one that `parentId` does not reach. The ranking `Ranked` expresses this: every record's id ranks strictly below its parent id.

The first three do not imply the fourth. Without the third condition the build silently drops records. `Scenario.OrphanDropped` shows this with records 1 (parent null) and 2 (parent 99): the ids are unique and there is one root, but record 2 is lost. Records on a cycle that `parentId` does not reach are dropped the same way. Take records 1 (parent null), 2 (parent 3) and 3 (parent 2). They meet the first three conditions, and the source builds a tree holding record 1 alone. `Scenario.CycleUnranked` shows that no ranking exists for them, so the model's builder does not accept this input. When `parentId` itself lies on a cycle, the source never returns.

`buildTreeFromFlatList` returns `undefined` when no record matches; that is `None` here. The builder's selectors (`idSelector`, `parentIdSelector`, `provider`) are total Dafny functions. Keys are compared with value equality (`K(==)`), standing in for `===`.

## Model

| member | source | states |
|---|---|---|
| Builder.BuildForest | tree-utils.ts:20-32 | There is one root per record whose parent id equals `parentId`, so the count equals the number of such records. Root i holds the provider's value of the i-th such record in input order. Every built node has a children array, and its length is the number of records naming that node's id as parent. |
| Builder.BuildForestChildren | tree-utils.ts:27-30 | Root i is the node of the i-th record whose parent id is `parentId`. Its children are exactly the forest built with that record's id as the parent id. So what `BuildForest` states about roots holds at every depth. |
| Builder.MatchingInInputOrder | tree-utils.ts:26 | The root selection is an order-preserving filter. It commutes with concatenating inputs. It keeps a record, with all its occurrences, exactly when the record's parent id is `parentId`. |
| Builder.BuildTree | tree-utils.ts:43-50 | The single tree is absent exactly when no record names `parentId` as its parent. |
| Builder.BuildTreeIsFirstRoot | tree-utils.ts:49 | When present, the tree is the node built from the first record in input order whose parent id is `parentId`. Its children are the forest under that record's id. |
| Builder.Descendants | tree-utils.ts:26-29 | Every record listed under a parent id, in walk order, is a record of the input. |
| Builder.ForestRoundTrip | tree-utils.ts:20-32 | The pre-order values of the built forest are the provider's values of the records under `parentId`: each matching record, then the records under its own id, in input order at every level. |
| Builder.BuildThenFlatten | tree-utils.ts:43-50 | Flattening the built tree with an identity transform gives the provider's values of the first root record and of the records under it, in pre-order of the parent relation. |
| RoundTrip.DescendantsMembers | tree-utils.ts:26-29 | A record is listed under a parent id exactly when following parent ids upwards from it reaches that parent id. |
| RoundTrip.DescendantsDistinct | tree-utils.ts:26-29 | With unique ids, no record is listed twice under a parent id. |
| RoundTrip.DescendantsCoverOnce | tree-utils.ts:20-32 | With unique ids and every record reaching the parent id, the records listed under it are the whole input, each exactly once. |
| RoundTrip.ForestReturnsEveryRecord | tree-utils.ts:20-32 | Under the same conditions, the pre-order values of the built forest are the provider's values of all records, each exactly once. |
| RoundTrip.BuildFlattenRoundTrip | tree-utils.ts:43-50 | Suppose four things hold: ids are unique; exactly one record has `parentId` as its parent id; every other parent id names a record; and a ranking puts every record's id strictly below its parent id, so there is no cycle among parent ids anywhere in the list. Then the tree is present, and flattening it with an identity transform gives the provider's value of every record exactly once. |
| Traversal.VisitTree | tree-utils.ts:89-102 | `visitTree` starts at the root with no ancestors and index 0. Its contract, the pre-order fold, is stated by `Traversal.VisitTreeIsPreorderRun`. |
| Traversal.VisitTreeIsPreorderRun | tree-utils.ts:89-102 | `visitTree` makes exactly the calls of the pre-order list, once each and in that order. Its outcome is the visitor's state after those calls. |
| Traversal.PreSize | tree-utils.ts:89-102 | There is one call per node, and the first is the root's, with no ancestors and index 0. |
| Traversal.PreValuesUnfold | tree-utils.ts:97-98 | The values met in a walk from the root are the root's own value, then the values of each child's subtree in stored order. |
| Traversal.ValuesIgnoreContext | tree-utils.ts:94-98 | The values met in a walk of a subtree do not depend on the ancestors or the index the walk starts with. |
| Addresses.PreorderByAddress | tree-utils.ts:90-101 | Call i is made for the i-th address in strict lexicographic order, so a node comes before its descendants and siblings come in stored order. It carries the node at that address, the nodes from the root to its parent, and its last position. Every address of the tree is listed exactly once. |
| Addresses.VisitAncestry | tree-utils.ts:92-98 | At every call the ancestor list runs from the root to the node's parent, each entry a child of the one before. The node sits at the given index in its parent's children. The ancestor count equals the node's depth. The root gets no ancestors and index 0. |
| Addresses.PathSteps | tree-utils.ts:98 | Along an address path each node is the child, at the recorded position, of the node before it. The last one is the parent of the addressed node. |
| Queries.FlattenTree | tree-utils.ts:110-119 | `flattenTree` returns one result per node. Which result each one is, is stated by `Queries.FlattenIsPreorderMap`. |
| Queries.FlattenIsPreorderMap | tree-utils.ts:110-119 | The flattened list has one entry per node. Entry i is the transform of the i-th visited value, its ancestors' values and its sibling index. |
| Queries.FindNodes | tree-utils.ts:121-131 | `findNodes` returns at most one node per tree node, and every node returned satisfies the predicate. The exact list is stated by `Queries.FindNodesIsPreorderFilter`. |
| Queries.FindNodesIsPreorderFilter | tree-utils.ts:121-131 | `findNodes` returns, in pre-order, exactly the visited nodes whose value satisfies the predicate. |
| Queries.FindValues | tree-utils.ts:133-143 | `findValues` returns at most one value per tree node, and every value returned satisfies the predicate. The exact list is stated by `Queries.FindValuesIsPreorderFilter`. |
| Queries.FindValuesIsPreorderFilter | tree-utils.ts:133-143 | `findValues` returns, in pre-order, exactly the visited values satisfying the predicate. Each keeps the multiplicity it has in the tree. |
| Queries.FindValuesAreFoundNodeValues | tree-utils.ts:121-143 | The value-shaped and node-shaped searches agree: `findValues` is the values of `findNodes`. |
| Queries.CountChildren | tree-utils.ts:145-154 | The count is 0 for a node with an absent or empty children array, and smaller than the subtree's node count. |
| Queries.CountUnfiltered | tree-utils.ts:145-154 | With no filter, the count is the number of strict descendants, i.e. the node count minus one. |
| Queries.CountFiltered | tree-utils.ts:146-150 | With a filter, the count is the total size of the subtrees of the direct children that pass it. A failing child adds nothing, its subtree included. A passing child adds itself and all its descendants, unfiltered. |
| Queries.MissingChildrenLikeEmpty | tree-utils.ts:97 | A node with no `children` field is handled like one with an empty array. A value-shaped visitor gets the same single call. Flattening, `findValues` and counting give the same results. `findNodes` finds as many nodes with the same values, though the node found is the node itself. |
| Scenario.RootWithTwoChildren | tree-utils.ts:43-50 | Records 1, 2 and 3, with 2 and 3 under 1 and a null root parent id, build the tree 1 over [2, 3]. |
| Scenario.FindAboveRoot | tree-utils.ts:133-143 | On that tree, `findValues` with "id > 1" returns [2, 3]. |
| Scenario.CountUnderRoot | tree-utils.ts:145-154 | On that tree, `countChildren` is 2 without a filter and 1 with the filter "id == 2". |
| Scenario.EmptyList | tree-utils.ts:20-50 | An empty record list builds no roots and no tree. |
| Scenario.OrphanDropped | tree-utils.ts:26-29 | Records 1 (parent null) and 2 (parent 99) have unique ids and one root, but 99 names no record. The tree is 1 alone, and flattening it loses record 2. |
| Scenario.CycleUnranked | tree-utils.ts:26-30 | Records 1 (parent null), 2 (parent 3) and 3 (parent 2) have unique ids, one root, and parent ids that all name records. Even so, no ranking puts every id below its parent id. The first three round-trip conditions therefore do not give the fourth. |
| Scenario.FilterNotForwarded | tree-utils.ts:148-149 | With the filter "id == 2", child 2 passes and brings its child 4 into the count although 4 fails the filter. |

## Left out

- `index.ts` is not part of this model. It is demonstration glue: sample data, console output, and role labels computed with an external pattern-matching library.
- The runtime shape test `isNodeVisitor` (tree-utils.ts:68-70) is replaced by the tagged variant `Visitor`. A JavaScript object that offers both `visitNode` and `visitValue` has no counterpart here.
- Callbacks are pure functions. Side effects are modelled only as the state a visitor threads through its calls. Some JavaScript behaviour is therefore not modelled:
  - a transformer that mutates the node it is given, with later calls seeing the change through their ancestor lists;
  - aliasing between the returned nodes and the input;
  - exceptions thrown by callbacks.
- Builder.BuildForest: the model requires a ranking of ids under which every record's id ranks below its parent id. The source only loops forever when a cycle is reachable from `parentId`. The model asks for acyclicity of the whole relation, which excludes some inputs on which the source terminates, such as an unreachable record whose parent id is its own id.
- Builder.BuildTree: the same ranking requirement as `BuildForest`, for the same reason.
- RoundTrip.BuildFlattenRoundTrip: proved only for unique ids. With duplicate ids the builder is modelled as written: a record is attached under every node whose id equals its parent id. How many copies of a record then appear is not stated.
- Queries.CountChildren: the count is an unbounded natural number. JavaScript numbers are doubles, and sums beyond 2^53 would lose precision.
- Recursion depth and stack overflow on very deep trees are not modelled.
