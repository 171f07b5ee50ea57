# confining-strut: the declaration rewriter, in Dafny

confining-strut makes `Function.prototype.toString` return the source text of
a function declaration. It rewrites a program so that every
`function f(...) {...}` is followed, in its own statement list, by

    f.toString = function () { return '<the exact text of the declaration>'; };

The work is done by `addToStringForFunctionDeclarations(content, ast)`
(index.js:47-86). It walks the esprima syntax tree with estraverse. For
every `FunctionDeclaration` it enters, it does three things:

- it slices the declaration's text out of the source by its `range`;
- it finds the declaration in `parent.body` by identity (`indexOf`);
- it splices the override statement in right after it.

The model has three modules.

- `JsArray` (jsarray.dfy) covers the two array operations. `IndexOf` is
  `indexOf` with identity comparison and -1 for a miss. `Splice` is a
  one-element `splice(start, 0, x)`, with JavaScript's clamping of `start`.
- `Estree` (estree.dfy) holds the part of the ESTree node format that the
  rewriter reads or builds.
  - Nodes live in an arena (`seq<Node>`), and a node's identity is its
    index (a `Handle`). Two declarations with the same text are therefore
    still different nodes, as they are for `indexOf`.
  - `IsTree` says that the arena is a tree rooted at the `Program` node 0.
    The tree comes with a parent map as its witness.
- `ConfiningStrut` (confining_strut.dfy) holds the rewriter itself.
  - The class `Ast` holds the arena. Its method `Enter` is the `enter`
    callback. It mutates the parent's statement list in place and appends
    the eight fresh node objects of the override.
  - The method `AddToStringForFunctionDeclarations` is the traversal. It
    keeps estraverse's work list the way estraverse does:
    - it pops the last entry;
    - it enters that entry's node;
    - it then pushes the node's children, as they are after the enter
      call, last child first.
    - Because a parent's children are pushed before the parent's list is
      spliced, the inserted statements are never visited.
  - The state after the walk is specified by functions:
    - `Expand(list, ov)` is a list in which each declaration `d` with an
      override is followed by `ov[d]`;
    - `Rewritten` applies `Expand` to every statement list;
    - `ToStringOverride` reads a statement back as
      `X.toString = function () { return "<code>"; }`.
  - Lemmas about these functions state the properties the program
    promises. Every declaration of the tree gets exactly one override. The
    override sits directly after its own declaration and returns exactly
    that declaration's text. No statement is removed or reordered.
    Nothing else changes.

## Model

| member | source | states |
|---|---|---|
| JsArray.IndexOf | index.js:54 | `i` is -1 exactly when the node is not in the list. Otherwise `a[i]` is the node and no earlier element is. |
| JsArray.IndexOfJoin | index.js:54 | In `a + [x] + b` with no `x` in `a`, `indexOf(x)` is `\|a\|`. |
| JsArray.NoClamp | index.js:54-55 | The start `indexOf(x) + 1` that the rewriter passes to `splice` is never clamped, on a miss (0) as on a hit (one past the found element). |
| JsArray.Splice | index.js:55 | `splice(start, 0, x)` deletes nothing. The list grows by exactly one and `x` is at the clamped start. Elements before it keep their index, elements after it move up by one. Start 0 puts `x` in front. |
| JsArray.SpliceAfter | index.js:55 | Splicing `y` at the index after `x` in `a + [x] + b` gives `a + [x, y] + b`. |
| ConfiningStrut.Capture | index.js:53 | The captured code has length `end - start`. Character `k` of it is character `start + k` of the source. For a range spanning the whole input, the code is the input. |
| ConfiningStrut.CaptureEmbedded | index.js:53 | A declaration's text is captured exactly, whatever text surrounds it, comments and line breaks included. |
| ConfiningStrut.OverrideRecognized | index.js:55-83 | The eight records built for an override read back as an `=` assignment to `<node.id>.toString` of a zero-parameter function whose body is a single `return` of a literal holding exactly the captured code. The object is the declaration's own `id` node. The statement is not a `FunctionDeclaration`. |
| ConfiningStrut.ExpandWithout | index.js:51 | A statement list holding no declaration is not changed. |
| ConfiningStrut.ExpandUnaffected | index.js:54-55 | Giving an override to a declaration that is not in a list leaves that list as it was. |
| ConfiningStrut.ExpandLength | index.js:55 | Each declaration adds exactly one statement to its list. |
| ConfiningStrut.ExpandStrip | index.js:55 | Removing the inserted statements gives back the original list: nothing is deleted or reordered. |
| ConfiningStrut.ExpandAt | index.js:54-55 | The `k`-th original statement sits at `k` plus the number of overrides before it, and its own override sits directly after it. |
| ConfiningStrut.SpliceExpand | index.js:54-55 | On a list that already holds earlier overrides, `indexOf` still finds the declaration where `Expand` put it. Splicing at that index plus one inserts its override and nothing else. |
| ConfiningStrut.MissingGoesFirst | index.js:54-55 | A declaration missing from `parent.body` has its override inserted at the front of the list. The insertion is not skipped. |
| ConfiningStrut.CountIsDeclarations | index.js:51 | When exactly the declarations have overrides, the overrides in a list equal its declarations in number. |
| ConfiningStrut.OverrideFollows | index.js:54-55 | Original statement `k` is at `k` plus the number of declarations before it. A declaration's override directly follows it. |
| ConfiningStrut.ListAfterRewrite | index.js:51-55 | A list with N declarations ends with exactly N more statements. Its original statements keep their order, and each declaration is directly followed by its own override. |
| ConfiningStrut.Ast.Enter | index.js:49-84 | A node that is not a `FunctionDeclaration` changes nothing. For a declaration, the override's eight records are appended and spliced into `parent.body` at `indexOf(node) + 1`. No other node changes. The new statement reads back as an override of `node.id` returning the captured text. |
| ConfiningStrut.Ast.AddToStringForFunctionDeclarations | index.js:47-86 | Every declaration of the tree, nested ones included, gets one override, and nothing else does. Every statement list becomes its `Expand`. Every other original node is unchanged. Only the override nodes are added. Each override reads back as `id.toString` returning that declaration's exact source slice. |
| ConfiningStrut.StatementListsAfterWalk | index.js:47-86 | After the walk, every input statement list has grown by its number of declarations and kept its statements in order. Each declaration is immediately followed by its override. |
| ConfiningStrut.WalkStarts | index.js:48 | The walk starts with the `Program` root entered, which is a no-op, and its children pending. |
| ConfiningStrut.EnterAllowed | index.js:49-54 | The popped entry is an unentered node whose parent is entered. A declaration's parent holds a statement list, so `parent.body.indexOf` is defined. |
| ConfiningStrut.EnterKeepsArena | index.js:51-83 | One enter step keeps the arena invariant: originals are as `Rewritten` says, and earlier overrides are intact. A declaration's override is recorded at the old end of the arena. |
| ConfiningStrut.ArenaStep | index.js:53-83 | Entering a declaration adds its override to its parent's list and to the record of built overrides. |
| ConfiningStrut.OverridesKept | index.js:55-83 | An enter step leaves intact every override built earlier, and the new one holds the records built for it. |
| ConfiningStrut.EnterUpdatesLists | index.js:54-55 | Splicing at `indexOf(d) + 1` turns the parent's list into its `Expand` with `d`'s override added. Every other original node stays as it was. |
| ConfiningStrut.ParentListAfterEnter | index.js:54-55 | The parent's list after the splice is its `Expand` with `d`'s override added. |
| ConfiningStrut.OtherNodeAfterEnter | index.js:55 | An original node other than the parent is not affected by the splice. |
| ConfiningStrut.WalkStep | index.js:48 | One pop-enter-push step of estraverse keeps the traversal invariant. |
| ConfiningStrut.PendingStep | index.js:48 | After the step, the pending entries are still distinct. Each is an unentered node paired with its entered parent. |
| ConfiningStrut.ClosureStep | index.js:48 | After the step, every child of an entered node is entered or pending. |
| ConfiningStrut.ChildrenKept | index.js:48-55 | The node being entered has none of its own statements rewritten yet, so the children pushed are its original ones. |
| ConfiningStrut.WalkEnds | index.js:48 | When the work list is empty, every declaration of the tree has been entered and has an override. |
| Estree.ClosedSetHoldsTree | index.js:48 | A set of nodes that holds the root and is closed under children holds the whole tree. |
| ConfiningStrut.OverridesReadBack | index.js:55-83 | Every recorded override reads back as `id.toString` returning its declaration's captured text. |
| ConfiningStrut.HelloWellFormed | test/simple.js:4 | The tree of `function helloWorld(){}` is a well-formed input with a single declaration. |
| ConfiningStrut.HelloWorld | test/simple.js:4-13 | For `function helloWorld(){}`, the program becomes the declaration (node 1, unchanged; its name node 2 is still `Identifier("helloWorld")`) followed by `helloWorld.toString = function () { return <the whole input>; }`. |

## Left out

- Parsing (index.js:90, esprima) is left out. The tree, the node ranges and
  the parent map are inputs, and `ParseError` belongs to the library.
- Code generation (index.js:92, escodegen) is left out, with its quoting,
  escaping and layout. The model states the literal's value, not its
  printed text. The exact output string in test/simple.js:7-13 depends on
  the generator.
- `addToStrings` (index.js:89-93) is only parse, rewrite and generate. Only
  the rewrite is modelled.
- `main` (index.js:96-104) is left out; it is file and console I/O. It also
  ignores its `filename` parameter and reads `process.argv[2]` instead.
- estraverse's node types are reduced to the ones the rewriter reads or
  builds. Every other node type is `OtherNode`, with its children in
  visitor-key order.
- estraverse's `leave` callbacks and its `skip`/`break` controls are left
  out; the rewriter uses none of them.
- A declaration's parent must hold a statement list (a `Program` or
  `BlockStatement` body). This is the precondition `WellFormed`. For any
  other parent (`SwitchCase`, `LabeledStatement`, an `if` branch),
  `parent.body.indexOf` throws in the source, and that error path is not
  modelled.
- `Capture` requires the range to lie inside the text. JavaScript's
  clamping of out-of-range `slice` arguments is not modelled, nor are its
  UTF-16 code units; a string is a sequence of characters.
- The property node of the override is tagged `identifier`, in lower case,
  at index.js:64. The model builds it as an `Identifier` node. Nothing in
  the rewriter reads the tag.
- One might expect a declaration missing from its parent's list to be
  skipped. The code instead inserts the override at the front of the list
  (index.js:54-55), and the model follows the code (`MissingGoesFirst`). It
  also proves that the case cannot arise on a well-formed tree
  (`SpliceExpand`, `EnterUpdatesLists`).
- Capturing by line/column pairs is not in the code, which slices by
  character offsets only, so it is not modelled.
