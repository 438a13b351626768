# TreeADT in Dafny

A model of `Tree<V>`, the generic multi-way tree node of the TreeADT library
(`TreeADT/src/treeADT/Tree.java`), together with proofs about it. Each node
holds a payload `value` and an ordered list of child nodes. On a node you can:

- read it: `getValue`, `child`, `firstChild`, `lastChild`, `numberOfChildren`,
  `children`, `isLeaf`;
- change it: `setValue`, `addChild`, `addChild(index, c)`, `addChildren`,
  `removeChild`;
- compare and print it: structural `equals` and the indented pre-order
  `toString`.

Every attachment is guarded by the private identity-reachability test
`contains`.

The heap of `Tree<V>` objects is an arena (module `Arena`):

- A `NodeId` stands for an object reference.
- `nodes[t]` holds the two fields of object `t`.
- The class `TreeADT.Forest` owns the arena. Its methods change it in place,
  as the Java mutators change their objects.

Nodes may be shared, as the test fixture shares "four" under "one" and under
"two". So the structure the code maintains is a directed acyclic graph, not a
strict tree. Its acyclicity is witnessed by a ghost `rank` that strictly
decreases from every node to each of its children. Reachability (`contains`),
equality and rendering recurse on that rank.

The recursive traversals and the attachment checks each have a reference
definition, and lemmas connect the two:

- `contains` is shown equal to reachability along explicit child paths.
- `equals` is equality of the trees the two nodes unfold to.
- `toString` is the line-per-entry printing of a pre-order outline.
- The check `c.contains(this)` of `addChild` is exactly what keeps the heap
  acyclic. The other check, `this.contains(c)`, refuses a node that is already
  in the receiver's subtree.

Module `Fixtures` restates the string-tree scenarios of the unit tests on the
eleven-node fixture they build. Each scenario that calls operations is a
method whose postcondition holds the values the test asserts. The three
`toString` expectations are lemmas about every heap of the fixture's shape,
under any ranking.

Two behaviours of the code are easy to miss:

- `removeChild(i)` followed by `addChild(i, removed)` does not restore a
  node in general. When `i` was the last index, `addChild(index, c)` refuses
  it, because it demands `index < numberOfChildren()`. It also fails when
  another child of the node reaches the removed one, since the node still
  contains it. In every other case the round trip holds
  (`Mutation.RemoveThenInsertRestores`, `Mutation.RemoveLastThenInsertFails`,
  `Mutation.RemoveThenInsertSiblingFails`).
- The preserved invariant is acyclicity of the shared graph, not "every
  node has at most one parent". The constructor never checks its
  arguments. `addChild` refuses only a node inside the receiver's subtree or
  a node that reaches the receiver, so a node already attached elsewhere is
  accepted.

## Model

| member | source | states |
|---|---|---|
| `Arena.Contains` | TreeADT/src/treeADT/Tree.java:113-119 | `contains(node)`, identity reachability: a node always contains itself and only ever finds allocated nodes; characterised in full by `ContainsIffReaches` |
| `Arena.ContainsIffReaches` | TreeADT/src/treeADT/Tree.java:113-119 | `contains(node)` holds exactly when some walk along child links leads from the receiver to `node`, the receiver itself included |
| `Arena.ContainsRank` | TreeADT/src/treeADT/Tree.java:113-119 | whatever a node contains sits no higher in the ranking, and strictly lower when it is another node, so the recursion of `contains` terminates |
| `Arena.ContainsOrphan` | TreeADT/src/treeADT/Tree.java:26-32 | a node that is nobody's child, such as a freshly constructed tree, is contained in no subtree but its own |
| `Arena.RankedAcyclic` | TreeADT/src/treeADT/Tree.java:113-119 | a ranked heap has no cycle: no walk of one link or more returns to its start |
| `Mutation.Relink` | TreeADT/src/treeADT/Tree.java:205 | reassigning one node's `children` field leaves its value and every other node unchanged |
| `Mutation.Inserted` | TreeADT/src/treeADT/Tree.java:197-205 | the list built by `addChild(index, c)` is one longer, with the children before `index` in place, `c` at `index`, and every later child one place on |
| `Mutation.Removed` | TreeADT/src/treeADT/Tree.java:234-241 | the list built by `removeChild(index)` is one shorter, with the children before `index` in place and every later child one place back |
| `Mutation.AttachCheck` | TreeADT/src/treeADT/Tree.java:169-175 | the two checks of `addChild(c)`, in order; every refusal is an illegal argument; when it passes is characterised by `AttachCheckIffApart` |
| `Mutation.AttachCheckIffApart` | TreeADT/src/treeADT/Tree.java:169-175 | `addChild(c)` is accepted exactly when the receiver does not reach `c` and `c` does not reach the receiver; otherwise it fails with an illegal argument |
| `Mutation.InsertCheck` | TreeADT/src/treeADT/Tree.java:186-196 | `addChild(index, c)` is accepted exactly when `0 <= index < numberOfChildren()` and the two reachability checks pass, so `index == numberOfChildren()` and every insertion into a leaf are refused; every refusal is an illegal argument |
| `Mutation.AttachKeepsRanked` | TreeADT/src/treeADT/Tree.java:173-176 | when `c` does not reach the receiver, any child list made of the old children and `c` keeps the heap ranked, under a ranking that lifts every node reaching the receiver |
| `Mutation.DetachKeepsRanked` | TreeADT/src/treeADT/Tree.java:229-243 | dropping children keeps the heap ranked under the same ranking |
| `Mutation.AttachAcyclicIff` | TreeADT/src/treeADT/Tree.java:173-176 | attaching `c` under `p` leaves the heap acyclic if and only if `c` does not reach `p`, so the `c.contains(this)` guard is exactly what acyclicity needs |
| `Mutation.ContainsFrame` | TreeADT/src/treeADT/Tree.java:113-119 | rewriting `p`'s children changes no `contains` answer for a node that does not reach `p` |
| `Mutation.RemoveThenInsertRestores` | TreeADT/src/treeADT/Tree.java:186-243 | after `removeChild(i)` with `i` not the last index, `addChild(i, removed)` passes its checks and puts the heap back exactly, when no other child reaches the removed one |
| `Mutation.RemoveLastThenInsertFails` | TreeADT/src/treeADT/Tree.java:188-190 | after removing the last child, `addChild(index, removed)` at its old index is refused |
| `Mutation.RemoveThenInsertSiblingFails` | TreeADT/src/treeADT/Tree.java:186-243 | when another child of `p` reaches the removed child, `addChild(i, removed)` after `removeChild(i)` is refused: `p` still contains it |
| `Mutation.AddAll` | TreeADT/src/treeADT/Tree.java:215-220 | `addChildren` is `addChild` on each argument in turn, stopping at the first refusal; the heap it leaves is still ranked |
| `Mutation.AddAllAppendsPrefix` | TreeADT/src/treeADT/Tree.java:215-220 | `addChildren` is not transactional: it appends some prefix of its arguments and touches no other node; it succeeds exactly when the prefix is all of them, and otherwise fails with an illegal argument |
| `Equality.ShapeEqualUnfold` | TreeADT/src/treeADT/Tree.java:121-131 | two nodes unfold to the same tree exactly when their values, their child counts and their children position by position do |
| `Equality.Equal` | TreeADT/src/treeADT/Tree.java:121-131 | `equals` holds exactly when the two nodes unfold to the same tree |
| `Equality.EqualReflexive` | TreeADT/src/treeADT/Tree.java:121-131 | every node equals itself |
| `Equality.EqualSymmetric` | TreeADT/src/treeADT/Tree.java:121-131 | `a.equals(b)` and `b.equals(a)` agree |
| `Equality.EqualTransitive` | TreeADT/src/treeADT/Tree.java:121-131 | equality is transitive |
| `Equality.EqualIgnoresIdentity` | TreeADT/src/treeADT/Tree.java:121-131 | a distinct node with the same value and the same child objects is equal: `equals` does not compare identity |
| `Equality.RemovedSubtreeUntouched` | TreeADT/src/treeADT/Tree.java:229-243 | the subtree that `removeChild` hands back unfolds to the same tree as before the removal |
| `Rendering.Indent` | TreeADT/src/treeADT/Tree.java:145-152 | the indentation of depth `d` is `2 * d` spaces |
| `Rendering.Render` | TreeADT/src/treeADT/Tree.java:145-152 | `toString(t, indent)`: the text starts with `indent` and ends with a newline; its whole content is characterised by `RenderIsOutline` |
| `Rendering.RenderChildren` | TreeADT/src/treeADT/Tree.java:148-150 | the text the loop over the children appends: empty exactly when there are no children, and otherwise starting with the deeper indent and ending with a newline |
| `Rendering.RenderIsOutline` | TreeADT/src/treeADT/Tree.java:145-152 | `toString(t, indent)` prints one line per node of `t`'s tree in pre-order: the indent, two more spaces per level of depth, the value and a newline |
| `Rendering.RenderChildrenIsOutline` | TreeADT/src/treeADT/Tree.java:148-150 | the loop over the children appends their outlines in order, one level deeper |
| `Rendering.ToString` | TreeADT/src/treeADT/Tree.java:133-136 | `toString()` is the pre-order outline of the whole subtree, one line per node, the root unindented and each level two spaces further in |
| `Rendering.EqualRendersAlike` | TreeADT/src/treeADT/Tree.java:121-152 | structurally equal nodes render identically |
| `TreeADT.InsertedList` | TreeADT/src/treeADT/Tree.java:197-204 | the two index loops of `addChild(index, c)` build exactly the inserted list |
| `TreeADT.RemovedList` | TreeADT/src/treeADT/Tree.java:234-240 | the two index loops of `removeChild(index)` build exactly the list without the child at `index` |
| `TreeADT.Forest.NewTree` | TreeADT/src/treeADT/Tree.java:26-32 | the constructor allocates one new node holding the value and the given children in argument order, changes no other node and keeps the heap ranked |
| `TreeADT.Forest.Value` | TreeADT/src/treeADT/Tree.java:39-41 | `getValue()`, a plain read of the `value` field with no contract of its own; pinned down by `SetValue` (`Value(t) == value` afterwards) and by the constructor `NewTree` |
| `TreeADT.Forest.NumberOfChildren` | TreeADT/src/treeADT/Tree.java:69-71 | `numberOfChildren()`, the length of the `children` field with no contract of its own; pinned down by the bounds in `Child` and `Children` and by `IsLeaf` |
| `TreeADT.Forest.Children` | TreeADT/src/treeADT/Tree.java:92-94 | iteration visits `numberOfChildren()` children, the i-th being `child(i)` |
| `TreeADT.Forest.IsLeaf` | TreeADT/src/treeADT/Tree.java:101-104 | `isLeaf()` holds exactly when `child(0)` raises no-such-element, that is when there are no children |
| `TreeADT.Forest.Child` | TreeADT/src/treeADT/Tree.java:80-85 | `child(index)` fails with no-such-element exactly when `index < 0` or `index >= numberOfChildren()`, and otherwise returns the child at `index` |
| `TreeADT.Forest.FirstChild` | TreeADT/src/treeADT/Tree.java:48-51 | `firstChild()` is null exactly for a leaf, and otherwise `child(0)` |
| `TreeADT.Forest.LastChild` | TreeADT/src/treeADT/Tree.java:58-62 | `lastChild()` is null exactly for a leaf, and otherwise `child(numberOfChildren() - 1)` |
| `TreeADT.Forest.SetValue` | TreeADT/src/treeADT/Tree.java:159-161 | `setValue(v)` makes `getValue()` return `v` and changes neither this node's children nor any other node |
| `TreeADT.Forest.AddChild` | TreeADT/src/treeADT/Tree.java:169-177 | `addChild(c)` returns the outcome of the two checks; on success the children become the old ones followed by `c`, on failure nothing changes; the heap stays acyclic either way |
| `TreeADT.Forest.AddChildAt` | TreeADT/src/treeADT/Tree.java:186-206 | `addChild(index, c)` returns the outcome of the index and reachability checks; on success `c` is inserted at `index`, on failure nothing changes; the heap stays acyclic |
| `TreeADT.Forest.AddChildren` | TreeADT/src/treeADT/Tree.java:215-220 | the loop of `addChildren` has exactly the outcome and the final heap of successive `addChild` calls stopped at the first refusal |
| `TreeADT.Forest.RemoveChild` | TreeADT/src/treeADT/Tree.java:229-243 | `removeChild(index)` returns what `child(index)` returned before the call; on success the child at `index` is dropped and the later ones move back, on failure nothing changes |
| `Fixtures.SetUp` | TreeADT/src/treeADT/TreeTest.java:18-29 | the constructor calls of the fixture build exactly the eleven-node heap the tests use, "four" shared |
| `Fixtures.Values` | TreeADT/src/treeADT/TreeTest.java:40-54 | "zero" and "ten" hold the values their constructors were given |
| `Fixtures.Counts` | TreeADT/src/treeADT/TreeTest.java:87-95 | "zero" to "six" have 2, 2, 2, 0, 1, 4 and 0 children |
| `Fixtures.Leaves` | TreeADT/src/treeADT/TreeTest.java:140-147 | "zero", "two" and "four" are not leaves; "three", "six" and "ten" are |
| `Fixtures.ChildrenOfFive` | TreeADT/src/treeADT/TreeTest.java:126-134 | iterating over "five" visits "seven", "eight", "nine" and "ten", and nothing more |
| `Fixtures.SetValueZero` | TreeADT/src/treeADT/TreeTest.java:186-187 | after `setValue("a billion")`, "zero" holds "a billion" and keeps its children |
| `Fixtures.Accessors` | TreeADT/src/treeADT/TreeTest.java:60-120 | the first children of "zero", "one", "two" and "five" are "one", "three", "four" and "seven"; the last children of "zero" and "five" are "two" and "ten"; `child(1)` and `child(0)` of "zero" are "two" and "one", and `child(0)` to `child(3)` of "five" are "seven" to "ten"; indices -1 and 2 of "zero" raise no-such-element |
| `Fixtures.RenderFour` | TreeADT/src/treeADT/TreeTest.java:176 | "four" renders as `"four\n  six\n"` |
| `Fixtures.RenderOne` | TreeADT/src/treeADT/TreeTest.java:177 | "one" renders as `"one\n  three\n  four\n    six\n"` |
| `Fixtures.RenderFive` | TreeADT/src/treeADT/TreeTest.java:178 | "five" renders as `"five\n  seven\n  eight\n  nine\n  ten\n"` |
| `Fixtures.EqualsCopies` | TreeADT/src/treeADT/TreeTest.java:153-165 | "zero" equals itself, and fresh copies of "zero", "one", "two" and "three" over the same children equal the originals |
| `Fixtures.EqualsCases` | TreeADT/src/treeADT/TreeTest.java:158-168 | "notzero" over the children of "zero" is unequal to it, and so are "one" over "three" alone and "two" over "six" compared with "two" |
| `Fixtures.AddChildDuplicate` | TreeADT/src/treeADT/TreeTest.java:207-211 | "seven" can be added under "one", after which adding it under "zero" is refused |
| `Fixtures.AddChildEleven` | TreeADT/src/treeADT/TreeTest.java:196-201 | a new leaf "eleven" appended to "five" is accepted and becomes its fifth child, at index 4 |
| `Fixtures.AddChildLoop` | TreeADT/src/treeADT/TreeTest.java:217-222 | adding "zero" under "seven" is refused and leaves the fixture as it was |
| `Fixtures.AddChildAtTwo` | TreeADT/src/treeADT/TreeTest.java:228-238 | a new leaf inserted at index 2 of "five" is accepted; "five" then has five children, and the new leaf sits between "eight" and "nine" |
| `Fixtures.AddChildrenToThree` | TreeADT/src/treeADT/TreeTest.java:244-251 | `addChildren(seven, eight, nine, ten)` on the leaf "three" is accepted in full and gives it those four children in order |
| `Fixtures.AddChildrenDuplicate` | TreeADT/src/treeADT/TreeTest.java:256-262 | `addChildren(six, eight)` on "five" appends "six" and then refuses "eight" |
| `Fixtures.AddChildrenLoop` | TreeADT/src/treeADT/TreeTest.java:268-276 | `addChildren(seven, eight, one)` on "four" appends "seven" and "eight" and then refuses "one" |
| `Fixtures.RemoveChildren` | TreeADT/src/treeADT/TreeTest.java:282-295 | removing at 0, 1 and 1 from "five" returns "seven", "nine" and "ten"; "five" is left with "eight", "nine", "ten", then "eight", "ten", and finally "eight" alone |
| `Fixtures.RemoveChildMissing` | TreeADT/src/treeADT/TreeTest.java:300-304 | index 4 of "five" and index 0 of "six" raise no-such-element |

## Left out

- Null references are not modelled. Every node argument is a live node of the heap, and payloads are never null. With a null payload on the receiver, `equals` would throw, while a null payload only on the argument makes it return false (Tree.java:125). `toString` would throw on any null payload (Tree.java:147).
- `V.equals` is Dafny equality on the payload type. `V.toString` is a parameter `show: V -> string`, and the fixtures use the identity on strings.
- `equals(Object)` compares a `Tree` with an arbitrary object. Its `instanceof` test has no counterpart in a typed model, so `Equal` only compares two nodes.
- `children()` returns a `java.util.Iterator`. The model returns the sequence that iterator walks, and iterator invalidation is left out.
- Exceptions are results: `Result` for `child` and `removeChild`, and `Outcome` for the `void` mutators. `NoSuchElement` and `IllegalArgument` are the two Java exception classes.
- Indices are unbounded integers. Java's 32-bit `int` never overflows for lists of realistic size.
- `getValue()` and `numberOfChildren()` are plain reads of a field, and the length of a field. `TreeADT.Forest.Value` and `TreeADT.Forest.NumberOfChildren` carry no contract of their own. They are specified through `SetValue`, `IsLeaf`, `Child` and `Children`.
- TreeADT.Forest.NewTree: does not state the ranking it gives the new node, only that the heap stays ranked.
- The fixtures of integer trees in the tests are left out (TreeTest.java:30-33, 50-52, 188-189). They exercise `getValue`/`setValue` on another payload type, and `SetValue` is generic.
- A test that expects an exception ends at the first call that throws. `Fixtures.AddChildLoop` models only that call (TreeTest.java:219). `Fixtures.RemoveChildMissing` and `Fixtures.Accessors` also state the second call, which the test never reaches (TreeTest.java:119, 303). The first call changes nothing, so both are stated on the fixture as built.
- Concurrency is left out, as the library has none.
