# Newick tree reading, traversal and equal-angle layout, modelled in Dafny

This project models `public/js/phylo.js`, the tree library of a small phylogenetics viewer:

- `readTree` turns a Newick string such as `(A:0.1,B:0.2);` into a tree of parent-linked nodes, giving each node a label, a branch length and an id;
- `preorder`, `postorder`, `levelorder` and `numTips` walk the tree and count its tips;
- `fortify` flattens the tree into a table of parent–child edge records;
- `equalAngleLayout` gives every node an arc of the circle, in proportion to its number of tips, and an angle at the arc's middle.

## How the model is organised

- `wrappers.dfy` holds `Option` and `Result`.
- `tokenizer.dfy` holds the two string steps `readTree` starts with:
  - the whitespace `replace` (`StripSpaceTab`);
  - the split with captured delimiters (`Tokenize`);
  - the `split(':')` of a node-info token (`Fields`).

  They are written out directly. No regular-expression engine is modelled.
- `arena.dfy` represents the tree the source builds from linked objects. It is a sequence of `Node` records, with the root at index 0.
  - Each node holds `parent` (`None` is the source's `null`), `children` (indices in insertion order), `nodeLabel`, `branchLength`, and `id` (`None` until assigned).
  - `WellFormed` says that parent and child links agree and point to later indices.
  - `Descends` is the ancestor relation.
- `parser.dfy` models `readTree`:
  - `Step` is the effect of one token on the state: the arena, `curnode`, `nodeId`, and the warnings;
  - `RunFrom` is the loop, with its early `break`;
  - `ReadTreeSpec` is the whole function;
  - `ReadTree` is the imperative loop, proved equal to `ReadTreeSpec`.
- `traversal.dfy` specifies the traversals as functions on the arena (`Preorder`, `Postorder`, `MirrorPreorder`, `TipCount`). The source's loops become methods proved against them: `PreorderInto`, `PostorderInto`, `Levelorder` and `NumTips`.
- `fortify.dfy` holds the `Fortify` loop and its specification `Edges`.
- `layout.dfy` holds `EqualAngleLayout`:
  - it is a recursive method that writes an `array<Arc>` parallel to the arena, the fields the source writes onto each node;
  - its specification is `ArcFrom` (the arc each node gets) and `ChildArc` (the share each child gets);
  - the arithmetic is exact (`real`).

## Points where the model follows the code

These are points where the code differs from what its own comments say.

- **Ids are not "terminal before internal".** The comment above `readTree` says so, but the code gives ids to node-info tokens in the order they appear.
- **Ids can be overwritten.** A `;` does not move the cursor, so in `A;B` both tokens land on the root, and the root ends with id 1 (`Parser.ExampleSameNode`). The model therefore proves that ids are distinct and bounded by the id counter, not that they are exactly `0..k-1`.
- **`levelorder` is not breadth-first.** Its comment says "breadth-first", but it pops from the end it pushes to. The result is a depth-first walk that visits children right to left. `Traversal.Levelorder` is proved equal to `MirrorPreorder`, and `Traversal.LevelorderNotBreadthFirst` shows a tree where it visits a grandchild before a child. `numTips` only needs the set of visited nodes, so it is unaffected.
- **A `,` at the root makes the source throw.** The source dereferences `null`. This is modelled as `Failure(NoParentForComma)`.
- **`postorder` is not a post-order.** As written, it concatenates the preorders of the children and then appends the node. See Findings.

## Model

| member | source | states |
|---|---|---|
| `Tokenizer.StripSpaceTab` | public/js/phylo.js:17 | the pattern is a space followed by a tab, deleted in one left-to-right pass; the result is never longer than the input |
| `Tokenizer.StripKeepsNonBlanks` | public/js/phylo.js:17 | the strip never removes a character other than a space or a tab |
| `Tokenizer.StripRemovesPairs` | public/js/phylo.js:17 | the strip removes characters in space–tab pairs only |
| `Tokenizer.StripIdentity` | public/js/phylo.js:17 | text without a space directly followed by a tab is unchanged |
| `Tokenizer.StripWithoutSpaces` | public/js/phylo.js:17 | text without spaces is unchanged |
| `Tokenizer.StripIsSinglePass` | public/js/phylo.js:17 | the replacement is not repeated: two spaces then two tabs leave one space and one tab |
| `Tokenizer.StripKeepsLoneSpace` | public/js/phylo.js:17 | a space that is not followed by a tab survives (`", B"`) |
| `Tokenizer.Tokenize` | public/js/phylo.js:19 | splitting on `;`, `(`, `)` and `,` while keeping the delimiters gives 2·(number of delimiters)+1 pieces |
| `Tokenizer.TokenizeConcat` | public/js/phylo.js:19 | concatenating the tokens gives back the stripped text |
| `Tokenizer.TokenizeShape` | public/js/phylo.js:19 | odd-position tokens are single delimiters, and even-position tokens contain no delimiter |
| `Tokenizer.TokenizeWord` | public/js/phylo.js:19 | a delimiter-free word followed by a delimiter yields the word, then the delimiter, then the tokens of the rest |
| `Tokenizer.TokenizeNoDelimiter` | public/js/phylo.js:19 | text without delimiters is one token |
| `Tokenizer.Fields` | public/js/phylo.js:56 | `split(':')` gives one more piece than there are colons |
| `Tokenizer.FieldsJoin` | public/js/phylo.js:56 | joining the pieces with `:` gives back the token |
| `Tokenizer.FieldsAvoidSeparator` | public/js/phylo.js:56 | no piece contains a colon |
| `Tokenizer.FieldsNoSeparator` | public/js/phylo.js:56 | without a colon, the whole token is the only piece |
| `Tokenizer.FieldsOneSeparator` | public/js/phylo.js:56 | with exactly one colon at position c, the pieces are the text before and after it |
| `Tokenizer.LeadingSeparatorSplits` | public/js/phylo.js:56-59 | a token that starts with `:` splits into at least two pieces |
| `Tokenizer.OccurrencesAt` | public/js/phylo.js:56 | a colon at some position counts as an occurrence |
| `Arena.AddChild` | public/js/phylo.js:31-35 | a new parentless-free node is appended as the last child of the given node; the arena stays well formed and no other node changes |
| `Arena.ShapeKeepsWellFormed` | public/js/phylo.js:60-75 | changing labels, lengths or ids keeps the tree well formed |
| `Arena.RootReachesAll` | public/js/phylo.js:20-21 | every node of the tree lies below the root that `readTree` returns |
| `Parser.Initial` | public/js/phylo.js:20-22 | the loop starts with one parentless root as the cursor, and the id counter at 0 |
| `Parser.NodeInfo` | public/js/phylo.js:56-74 | zero colons: the label is the token and the branch length is `null`; one colon: the label comes before it and the length text after it; two or more colons: nothing is assigned (the warning case) |
| `Parser.LeadingColonBranchDead` | public/js/phylo.js:58-61 | if `split(':')` yields one piece, the token cannot start with `:`, so the `startsWith` branch is dead |
| `Parser.Descend` | public/js/phylo.js:29-47 | adding a child and moving the cursor to it keeps the parser invariant: a well-formed tree, the cursor inside it, and ids distinct and below the counter |
| `Parser.AssignInfo` | public/js/phylo.js:55-76 | a node-info token keeps the parser invariant |
| `Parser.Step` | public/js/phylo.js:24-77 | one token keeps the parser invariant whenever it does not throw |
| `Parser.RunFrom` | public/js/phylo.js:24-77 | the loop consumes at most all the tokens and ends in a state that satisfies the invariant |
| `Parser.StepIgnores` | public/js/phylo.js:25-27 | `""` and `";"` change nothing |
| `Parser.StepOpen` | public/js/phylo.js:29-37 | `(` appends exactly one new child to the cursor node and moves the cursor to it; the id counter and all other nodes are unchanged |
| `Parser.StepComma` | public/js/phylo.js:38-47 | `,` appends one new child to the cursor's parent and moves the cursor to it; at the root it throws |
| `Parser.StepClose` | public/js/phylo.js:48-54 | `)` moves the cursor to its parent, and stops the loop when there is no parent |
| `Parser.StepInfo` | public/js/phylo.js:55-76 | a node-info token gives the cursor node the next id in every case; it sets label and length as `NodeInfo` says, or records a warning and leaves them; no other node changes |
| `Parser.StepCounts` | public/js/phylo.js:24-77 | one step adds one node exactly for `(` and `,`, one id exactly for a node-info token, and one warning exactly for a malformed one; it throws only on `,` and stops only on `)` |
| `Parser.RunContinues` | public/js/phylo.js:24-26 | after a step that continues, the loop goes on from the next token in the new state |
| `Parser.RunHalts` | public/js/phylo.js:38-54 | a step that does not continue ends the loop: after `)` at the root with the current state and the next token, after `,` at the root with the error |
| `Parser.CountsStop` | public/js/phylo.js:48-54 | stopping right after a `)` adds no node, id or warning for it |
| `Parser.RunFromCounts` | public/js/phylo.js:24-77 | over the tokens it consumes, the loop creates one node per `(` and `,`, gives one id per node-info token and one warning per malformed one; it ends early only right after a `)`, and fails only if a `,` is present |
| `Parser.ParseCounts` | public/js/phylo.js:15-79 | a whole parse has 1 + (number of `(` and `,` consumed) nodes, its counter equals the number of node-info tokens consumed, it has one warning per malformed one, it stops early only right after a `)`, and it fails only if the text has a `,` |
| `Parser.ReadTreeShape` | public/js/phylo.js:15-79 | a successful parse returns a well-formed tree rooted at node 0, with distinct ids below the number of node-info tokens read and one node more than `(` and `,` tokens read |
| `Parser.ReadTree` | public/js/phylo.js:15-79 | the loop computes exactly `ReadTreeSpec`, and what it returns is well formed with distinct ids |
| `Parser.ApplyToken` | public/js/phylo.js:25-76 | the loop body on one token computes exactly what `Step` describes: whether the loop goes on, stops or throws, and the new nodes, cursor, counter and warnings |
| `Parser.ExampleTokens` | public/js/phylo.js:19 | `(A:0.1,B:0.2);` splits into `"", "(", "A:0.1", ",", "B:0.2", ")", "", ";", ""` |
| `Parser.TwoLeavesTokens` | public/js/phylo.js:19 | for delimiter-free words a and b, `(a,b);` splits into `"", "(", a, ",", b, ")", "", ";", ""` |
| `Parser.ExampleTwoTips` | public/js/phylo.js:15-79 | `(A:0.1,B:0.2);` gives a root with two tips: A with id 0 and length `0.1`, B with id 1 and length `0.2`; the root has no id and there are no warnings |
| `Parser.ExampleSameNode` | public/js/phylo.js:24-76 | `A;B` gives a single root labelled B with id 1: the `;` does not move the cursor, so the second token overwrites the first |
| `Traversal.Preorder` | public/js/phylo.js:91-97 | the preorder of a node is non-empty, starts with the node, and lists only nodes of the arena |
| `Traversal.PreorderInto` | public/js/phylo.js:91-97 | `preorder(node, list)` returns `list` followed by the preorder of `node` |
| `Traversal.PreorderMembers` | public/js/phylo.js:84-97 | the preorder lists exactly the nodes of the subtree |
| `Traversal.PreorderChildrenMembers` | public/js/phylo.js:93-95 | the children's part of the preorder lists exactly the nodes below the children still to come |
| `Traversal.PreorderDistinct` | public/js/phylo.js:84-97 | the preorder lists each node at most once |
| `Traversal.PreorderSize` | public/js/phylo.js:84-97 | the preorder's elements are the subtree, and its length is the subtree's size |
| `Traversal.PreorderFromRoot` | public/js/phylo.js:84-97 | from the root, the preorder lists every node of the tree exactly once |
| `Traversal.PreorderParentsFirst` | public/js/phylo.js:84-97 | in the preorder, every entry after the first has its parent earlier in the list |
| `Traversal.PostorderInto` | public/js/phylo.js:99-105 | `postorder(node, list)` returns `list` followed by the preorders of the children, then the node |
| `Traversal.PostorderRotatesPreorder` | public/js/phylo.js:99-105 | `postorder` as written is the preorder with its first entry moved to the end, so it is a permutation of the preorder |
| `Traversal.PostorderCounterexample` | public/js/phylo.js:99-105 | on the chain 0–1–2, `postorder` gives 1, 2, 0, with node 1 before its child; the corrected traversal gives 2, 1, 0 |
| `Traversal.ChainWellFormed` | public/js/phylo.js:99-105 | the chain used in the counterexample is a well-formed tree |
| `Traversal.TruePostorderChildrenBeforeParents` | public/js/phylo.js:99-105 | the corrected post-order ends with the node, and every other entry has its parent later in the list |
| `Traversal.TruePostorderChildrenFirst` | public/js/phylo.js:99-105 | in the children's part of the corrected post-order, every entry's parent comes later or is the node itself |
| `Traversal.MirrorPreorder` | public/js/phylo.js:107-121 | the right-to-left preorder is non-empty and starts with the node |
| `Traversal.StackWalkChildren` | public/js/phylo.js:113-119 | popping a stack that holds the first k children visits their subtrees from the last to the first |
| `Traversal.StackWalkConcat` | public/js/phylo.js:113-119 | draining a stack `a + b` drains `b` first, then `a` |
| `Traversal.StackWalkPop` | public/js/phylo.js:113-119 | popping the top node of the stack and pushing its children in order visits the node and then exactly what draining the old stack would have visited after it |
| `Traversal.Levelorder` | public/js/phylo.js:107-121 | the pop/push loop returns exactly the right-to-left preorder of its argument |
| `Traversal.MirrorPermutesPreorder` | public/js/phylo.js:107-121 | `levelorder` is a permutation of `preorder` |
| `Traversal.LevelorderVisitsSubtree` | public/js/phylo.js:107-121 | `levelorder` starts with its argument and lists every node of the subtree exactly once |
| `Traversal.LevelorderNotBreadthFirst` | public/js/phylo.js:107-121 | on a root with children 1 and 2, where 2 has child 3, `levelorder` gives 0, 2, 3, 1 and not the breadth-first 0, 1, 2, 3 |
| `Traversal.ForkWellFormed` | public/js/phylo.js:107-121 | the tree used to show that `levelorder` is not breadth-first is a well-formed tree |
| `Traversal.NumTips` | public/js/phylo.js:127-133 | the counting loop over `levelorder` returns the number of childless nodes in the preorder of the subtree |
| `Traversal.CountTipsPermutation` | public/js/phylo.js:127-133 | counting childless entries gives the same result for any permutation, so it does not matter which traversal `numTips` walks |
| `Traversal.TipCountIsSubtreeTips` | public/js/phylo.js:123-133 | `numTips` is the number of childless nodes in the subtree |
| `Traversal.TipCountSplits` | public/js/phylo.js:123-133 | a tip counts 1; an inner node counts the sum of its children's counts |
| `Traversal.TipCountPositive` | public/js/phylo.js:123-133 | every subtree has at least one tip |
| `Traversal.TipsBeforeAtLeast` | public/js/phylo.js:123-133 | the first k children together have at least k tips |
| `Fortify.Fortify` | public/js/phylo.js:142-160 | the loop returns the edge records of the preorder, skipping the parentless node |
| `Fortify.FortifyRecords` | public/js/phylo.js:142-160 | there is one record per node of the preorder except the root (|nodes|−1 records from the root), in preorder order; each record copies the ids and labels of the node and its parent and the node's branch length, and `isTip` holds exactly when the node has no children |
| `Fortify.EdgesWithoutRoot` | public/js/phylo.js:145-157 | a list of nodes that all have parents yields one record per node, in the same order |
| `Fortify.EdgesConcat` | public/js/phylo.js:145-157 | the records of a concatenation are the concatenation of the records |
| `Fortify.PreorderRestHasParents` | public/js/phylo.js:145-149 | in a preorder, every entry after the first has a parent |
| `Fortify.PreorderRecords` | public/js/phylo.js:145-157 | the records of a preorder are those of its entries that have a parent: from the root, all but the first entry; below it, all of them |
| `Fortify.EdgesStep` | public/js/phylo.js:145-157 | visiting one more node adds its record exactly when the node has a parent |
| `Layout.ChildArc` | public/js/phylo.js:183-194 | the arc a child gets always has a tip count of at least 1, which is that child's `numTips` |
| `Layout.ArcFrom` | public/js/phylo.js:183-202 | every arc the layout hands down can itself be divided: its tip count is not zero, so no division by zero occurs |
| `Layout.EqualAngleLayout` | public/js/phylo.js:170-203 | the root takes (0, 2, 0, numTips); every node below the starting node gets the arc `ArcFrom` gives; the starting node keeps its arc; nothing else changes |
| `Layout.LayOutChild` | public/js/phylo.js:183-202 | one pass of the children loop gives child k the arc `ChildArc` describes, lays out its subtree, returns the next `lastStart`, and keeps the node's own arc |
| `Layout.LoopChildArc` | public/js/phylo.js:185-194 | the loop's `arc`, `start` and `end` for child k make up exactly that child's `ChildArc`, and `end` is the next `lastStart` |
| `Layout.ArcFromChild` | public/js/phylo.js:200-201 | laying out a child's subtree from the child's own arc gives the same arcs as laying out from its parent |
| `Layout.ChildLayoutStep` | public/js/phylo.js:183-202 | one iteration of the children loop extends the laid-out part to one more child's subtree and leaves everything else unchanged |
| `Layout.AllChildrenLaidOut` | public/js/phylo.js:183-202 | after the loop, the nodes below some child are exactly the nodes below the node |
| `Layout.IndexOfChild` | public/js/phylo.js:183-184 | a child's position in its parent's children list is unique |
| `Layout.StartAtClosedForm` | public/js/phylo.js:181-194 | after k children, `lastStart` is the parent's start plus (end − start) · (tips of those children) / (parent's tips) |
| `Layout.ChildArcShape` | public/js/phylo.js:188-194 | a child's arc starts at `lastStart`, ends at the next `lastStart`, is (end − start) · child tips / parent tips wide, and has its angle at its middle |
| `Layout.ChildArcsPartition` | public/js/phylo.js:181-194 | when a node's tip count is its own: its first child starts at its start, each next child starts where the previous one ends, and the last child ends at its end |
| `Layout.ChildArcsNested` | public/js/phylo.js:181-194 | on an arc with start ≤ end, each child's arc and angle lie inside the parent's arc, and earlier children come before later ones |
| `Layout.StartAtBounds` | public/js/phylo.js:181-194 | `lastStart` only moves forward and never passes the parent's end |
| `Layout.TipsBeforeWithin` | public/js/phylo.js:185-188 | the tips of the first children never outnumber the tips of the node |
| `Layout.Laid` | public/js/phylo.js:170-202 | every node's arc after a layout from the root can be divided (its tip count is not zero) |
| `Layout.RootLayoutCovers` | public/js/phylo.js:170-202 | laid out from the root, every node of the tree gets its `Laid` arc |
| `Layout.LaidChild` | public/js/phylo.js:183-201 | a child's laid-out arc is the share its parent hands it |
| `Layout.LaidArc` | public/js/phylo.js:170-202 | after layout from the root, every node's `ntips` is its `numTips`, its arc lies within [0, 2], and it is 2 · (its tips) / (all tips) wide; each tip gets width 2 / (all tips) |
| `Layout.LaidRootFits` | public/js/phylo.js:170-176 | the root's arc is the whole circle, [0, 2], and counts all the tips |
| `Layout.LaidChildFits` | public/js/phylo.js:183-201 | when the parent's arc counts its tips, lies within [0, 2] and has its share of the width, so does each child's |
| `Layout.LaidChildrenTile` | public/js/phylo.js:181-194 | after layout from the root, the children of an inner node tile its arc: the first starts at its start, each next starts where the previous ends, the last ends at its end |
| `Layout.LaidChildrenInside` | public/js/phylo.js:181-194 | after layout from the root, each child's arc lies within its parent's, earlier before later, and its angle is the middle of its arc |

## Left out

- `parseFloat` (public/js/phylo.js:61, 69) is not modelled. A branch length is kept as the text after the colon (`Length(text)`), as `null` (`Null`), or as never set (`Undefined`).
- `console.warn` (public/js/phylo.js:73) is console I/O. The model records the offending token in a `warnings` list instead.
- The regular-expression engine behind `replace` and `split` is not modelled. The two patterns used (public/js/phylo.js:17, 19) are written out directly.
- The `x` and `y` coordinates (public/js/phylo.js:177-178, 197-198) are not modelled. They need `Math.sin`, `Math.cos` and floating point, for which no real-number model exists here.
- Floating point in general: the arc arithmetic is modelled with exact reals. The source's doubles can round, so for example the last child's end may differ from the parent's end by a rounding error.
- `equalDaylight` (public/js/phylo.js:206-211) is an unfinished stub that only calls `equalAngleLayout`. It is not modelled.
- The `example` constant (public/js/phylo.js:5) is data, not an operation.
- Object identity and aliasing are not modelled:
  - nodes are indices into an arena, not shared objects;
  - `preorder` and `postorder` push onto the caller's array, whereas `PreorderInto` and `PostorderInto` return the extended list as a new value.
- Layout.EqualAngleLayout: on a call that starts at a non-root node, the model requires that node to already hold an arc with a non-zero tip count. The source would otherwise compute with `undefined` fields and produce `NaN`.
- Parser.ReadTreeShape: proves that ids are distinct and below the number of node-info tokens read, not that they are exactly `0..k-1`. The latter fails when two node-info tokens land on the same node (`Parser.ExampleSameNode`).

## Findings

| source | as written | input that shows it | evidently intended | confidence | as-written member | corrected member |
|---|---|---|---|---|---|---|
| public/js/phylo.js:99-105 | `postorder` calls `preorder` on each child, so each subtree is listed parent first | the chain root → 1 → 2 gives 1, 2, 0, where node 1 comes before its child 2 | a post-order: 2, 1, 0, with every node after all of its descendants | high (not executed) | `Traversal.PostorderCounterexample` | `Traversal.TruePostorderChildrenBeforeParents` |
