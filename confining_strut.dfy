/** The declaration rewriter of index.js: every `FunctionDeclaration` in the
    tree gets, right after it in its own statement list, the statement
        <id>.toString = function () { return <code>; };
    where <code> is the declaration's exact source text. */
module ConfiningStrut {
  import opened JsArray
  import opened Estree

  datatype Option<T> = None | Some(value: T)

  // ---------------------------------------------------------------------
  // Text capture (index.js:53)
  // ---------------------------------------------------------------------

  /** The range lies inside the source text. */
  predicate Within(r: Range, content: string) {
    r.start <= r.end <= |content|
  }

  /** `content.slice(range[0], range[1])`: the characters from the start
      offset up to, but not including, the end offset, whatever they are. */
  function Capture(content: string, r: Range): (code: string)
    requires Within(r, content)
    ensures |code| == r.end - r.start
    ensures forall k :: 0 <= k < |code| ==> code[k] == content[r.start + k]
    ensures r == Range(0, |content|) ==> code == content
  {
    content[r.start..r.end]
  }

  /** A declaration's text is captured exactly, comments, line breaks and
      spacing included, whatever surrounds it in the source. */
  lemma CaptureEmbedded(before: string, decl: string, after: string)
    ensures Within(Range(|before|, |before| + |decl|), before + decl + after)
    ensures Capture(before + decl + after, Range(|before|, |before| + |decl|)) == decl
  {
  }

  // ---------------------------------------------------------------------
  // The synthesized statement (index.js:55-83)
  // ---------------------------------------------------------------------

  /** The number of node objects one override statement is made of. */
  const OverrideSize := 8

  /** The fresh node objects of `<id>.toString = function () { return
      <code>; };`, allocated at handles `o` to `o + 7`, outermost first. The
      member expression's object is the declaration's own `id` node: it is
      shared, not copied. */
  function OverrideRecords(o: Handle, id: Handle, code: string): seq<Node> {
    [ ExpressionStatement(o + 1),
      AssignmentExpression("=", o + 2, o + 4),
      MemberExpression(id, o + 3),
      Identifier("toString"),
      FunctionExpression([], o + 5),
      StatementList(BlockStatement, [o + 6]),
      ReturnStatement(o + 7),
      Literal(code) ]
  }

  /** What a `toString` override assigns, read back from the tree: the object
      whose `toString` is replaced and the string the replacement returns. */
  datatype Override = Override(obj: Handle, code: string)

  /** Reads statement `s` as `X.toString = function () { return "<code>"; };`
      (an expression statement holding an `=` assignment to the member
      `toString` of X, whose right side is a function expression with no
      parameters and a body of exactly one return of a string literal), or
      gives None when it has another shape. */
  function ToStringOverride(nodes: seq<Node>, s: Handle): Option<Override> {
    if s < |nodes| && nodes[s].ExpressionStatement? then
      var e := nodes[s].expression;
      if e < |nodes| && nodes[e].AssignmentExpression? && nodes[e].operator == "="
         && IsToStringMember(nodes, nodes[e].left) then
        match ReturnedLiteral(nodes, nodes[e].right)
        case Some(code) => Some(Override(nodes[nodes[e].left].obj, code))
        case None => None
      else None
    else None
  }

  /** `m` is a member expression `X.toString`. */
  predicate IsToStringMember(nodes: seq<Node>, m: Handle) {
    m < |nodes| && nodes[m].MemberExpression?
    && nodes[m].property < |nodes| && nodes[nodes[m].property] == Identifier("toString")
  }

  /** The literal returned by `f` when `f` is `function () { return <literal>; }`. */
  function ReturnedLiteral(nodes: seq<Node>, f: Handle): Option<string> {
    if f < |nodes| && nodes[f].FunctionExpression? && nodes[f].params == [] && nodes[f].block < |nodes| then
      var b := nodes[nodes[f].block];
      if b.StatementList? && b.kind == BlockStatement && |b.body| == 1
         && b.body[0] < |nodes| && nodes[b.body[0]].ReturnStatement? then
        var a := nodes[b.body[0]].argument;
        if a < |nodes| && nodes[a].Literal? then Some(nodes[a].value) else None
      else None
    else None
  }

  /** The statement built at `o` reads back as an override of `id` whose
      replacement returns exactly `code`; it is not a function declaration. */
  lemma OverrideRecognized(nodes: seq<Node>, o: Handle, id: Handle, code: string)
    requires o + OverrideSize <= |nodes|
    requires nodes[o..o + OverrideSize] == OverrideRecords(o, id, code)
    ensures ToStringOverride(nodes, o) == Some(Override(id, code))
    ensures !nodes[o].FunctionDeclaration?
  {
  }

  // ---------------------------------------------------------------------
  // Statement lists after the splices (index.js:54-55)
  // ---------------------------------------------------------------------

  /** `x`, followed by its override statement when it has one. */
  function WithOverride(x: Handle, ov: map<Handle, Handle>): seq<Handle> {
    if x in ov then [x, ov[x]] else [x]
  }

  /** A statement list in which every declaration `d` in `ov.Keys` has had
      its override `ov[d]` inserted right after it. */
  function Expand(list: seq<Handle>, ov: map<Handle, Handle>): seq<Handle> {
    if list == [] then [] else WithOverride(list[0], ov) + Expand(list[1..], ov)
  }

  /** The number of elements of `list` that have an override. */
  function Count(list: seq<Handle>, ov: map<Handle, Handle>): nat {
    if list == [] then 0 else (if list[0] in ov then 1 else 0) + Count(list[1..], ov)
  }

  /** `s` without the elements in `drop`. */
  function Strip(s: seq<Handle>, drop: set<Handle>): seq<Handle> {
    if s == [] then [] else (if s[0] in drop then [] else [s[0]]) + Strip(s[1..], drop)
  }

  lemma {:induction false} ExpandAppend(a: seq<Handle>, b: seq<Handle>, ov: map<Handle, Handle>)
    ensures Expand(a + b, ov) == Expand(a, ov) + Expand(b, ov)
  {
    if a == [] {
      assert a + b == b;
    } else {
      assert (a + b)[1..] == a[1..] + b;
      ExpandAppend(a[1..], b, ov);
    }
  }

  lemma {:induction false} ExpandMembers(list: seq<Handle>, ov: map<Handle, Handle>)
    ensures forall x :: x in Expand(list, ov) ==> x in list || x in ov.Values
  {
    if list != [] {
      ExpandMembers(list[1..], ov);
      forall x | x in list[1..] ensures x in list {
      }
    }
  }

  /** Giving an override to a handle that is not in the list changes nothing. */
  lemma {:induction false} ExpandUnaffected(list: seq<Handle>, ov: map<Handle, Handle>, d: Handle, o: Handle)
    requires d !in list
    ensures Expand(list, ov[d := o]) == Expand(list, ov)
  {
    if list != [] {
      assert forall x :: x in list[1..] ==> x in list;
      ExpandUnaffected(list[1..], ov, d, o);
    }
  }

  /** A list holding no declaration is left as it is. */
  lemma {:induction false} ExpandWithout(list: seq<Handle>, ov: map<Handle, Handle>)
    requires forall x :: x in list ==> x !in ov
    ensures Expand(list, ov) == list
  {
    if list != [] {
      ExpandWithout(list[1..], ov);
    }
  }

  /** The list grows by exactly one statement per declaration in it. */
  lemma {:induction false} ExpandLength(list: seq<Handle>, ov: map<Handle, Handle>)
    ensures |Expand(list, ov)| == |list| + Count(list, ov)
  {
    if list != [] {
      ExpandLength(list[1..], ov);
    }
  }

  lemma {:induction false} StripAppend(a: seq<Handle>, b: seq<Handle>, drop: set<Handle>)
    ensures Strip(a + b, drop) == Strip(a, drop) + Strip(b, drop)
  {
    if a == [] {
      assert a + b == b;
    } else {
      assert (a + b)[1..] == a[1..] + b;
      StripAppend(a[1..], b, drop);
    }
  }

  /** Nothing is deleted and nothing is reordered: taking the inserted
      statements out again gives back the original list. */
  lemma {:induction false} ExpandStrip(list: seq<Handle>, ov: map<Handle, Handle>)
    requires forall x :: x in list ==> x !in ov.Values
    ensures Strip(Expand(list, ov), ov.Values) == list
  {
    if list != [] {
      var x := list[0];
      StripAppend(WithOverride(x, ov), Expand(list[1..], ov), ov.Values);
      if x in ov {
        assert ov[x] in ov.Values;
        assert WithOverride(x, ov) == [x] + [ov[x]];
        StripAppend([x], [ov[x]], ov.Values);
      }
      ExpandStrip(list[1..], ov);
    }
  }

  /** The `k`-th original element sits at `k` plus the number of overrides
      before it, and its own override, if any, right after it. */
  lemma {:induction false} ExpandAt(list: seq<Handle>, ov: map<Handle, Handle>, k: nat)
    requires k < |list|
    ensures k + Count(list[..k], ov) < |Expand(list, ov)|
    ensures Expand(list, ov)[k + Count(list[..k], ov)] == list[k]
    ensures list[k] in ov ==>
      k + Count(list[..k], ov) + 1 < |Expand(list, ov)| && Expand(list, ov)[k + Count(list[..k], ov) + 1] == ov[list[k]]
  {
    ExpandLength(list, ov);
    if k > 0 {
      ExpandAt(list[1..], ov, k - 1);
      assert list[..k][1..] == list[1..][..k - 1];
    }
  }

  /** The expanded list, split around its `k`-th original element. */
  lemma ExpandAround(list: seq<Handle>, ov: map<Handle, Handle>, k: nat)
    requires k < |list|
    ensures Expand(list, ov) == Expand(list[..k], ov) + WithOverride(list[k], ov) + Expand(list[k + 1..], ov)
  {
    assert list == list[..k] + [list[k]] + list[k + 1..];
    ExpandAppend(list[..k] + [list[k]], list[k + 1..], ov);
    ExpandAppend(list[..k], [list[k]], ov);
    assert Expand([list[k]], ov) == WithOverride(list[k], ov) + Expand([], ov);
  }

  /** One enter step on a list already holding some overrides: the
      declaration at original index `k` is found where `Expand` put it, and
      splicing its override in right after it yields the list with that
      override too. */
  lemma SpliceExpand(list: seq<Handle>, ov: map<Handle, Handle>, k: nat, o: Handle)
    requires k < |list|
    requires list[k] !in list[..k] && list[k] !in list[k + 1..]
    requires list[k] !in ov && list[k] !in ov.Values
    ensures IndexOf<Handle>(Expand(list, ov), list[k]) == |Expand(list[..k], ov)|
    ensures Splice<Handle>(Expand(list, ov), IndexOf<Handle>(Expand(list, ov), list[k]) + 1, o)
         == Expand(list, ov[list[k] := o])
  {
    var d := list[k];
    var pre, post := list[..k], list[k + 1..];
    ExpandAround(list, ov, k);
    ExpandAround(list, ov[d := o], k);
    ExpandUnaffected(pre, ov, d, o);
    ExpandUnaffected(post, ov, d, o);
    var a, b := Expand(pre, ov), Expand(post, ov);
    ExpandMembers(pre, ov);
    assert d !in a;
    assert Expand(list, ov) == a + [d] + b;
    IndexOfJoin<Handle>(a, d, b);
    SpliceAfter<Handle>(a, d, b, o);
  }

  /** When the declaration is missing from the list `parent.body` it is
      looked up in, `indexOf` gives -1 and the override goes to the front of
      the list: the lookup failure is not a skip. */
  lemma MissingGoesFirst(list: seq<Handle>, d: Handle, o: Handle)
    requires d !in list
    ensures Splice<Handle>(list, IndexOf<Handle>(list, d) + 1, o) == [o] + list
  {
  }

  /** Number of function declarations in `list`. */
  function CountDeclarations(nodes: seq<Node>, list: seq<Handle>): nat {
    if list == [] then 0
    else (if list[0] < |nodes| && nodes[list[0]].FunctionDeclaration? then 1 else 0) + CountDeclarations(nodes, list[1..])
  }

  lemma {:induction false} CountIsDeclarations(nodes: seq<Node>, list: seq<Handle>, ov: map<Handle, Handle>)
    requires forall k :: 0 <= k < |list| ==> list[k] < |nodes| && (list[k] in ov <==> nodes[list[k]].FunctionDeclaration?)
    ensures Count(list, ov) == CountDeclarations(nodes, list)
  {
    if list != [] {
      CountIsDeclarations(nodes, list[1..], ov);
    }
  }

  /** In the expanded list, original element `k` sits at `k` plus the number
      of declarations before it, and its override, if any, right after it. */
  predicate PlacedAt(nodes: seq<Node>, list: seq<Handle>, ov: map<Handle, Handle>, k: nat)
    requires k < |list|
  {
    var e, pos := Expand(list, ov), k + CountDeclarations(nodes, list[..k]);
    && pos < |e| && e[pos] == list[k]
    && (list[k] in ov ==> pos + 1 < |e| && e[pos + 1] == ov[list[k]])
  }

  lemma OverrideFollows(nodes: seq<Node>, list: seq<Handle>, ov: map<Handle, Handle>, k: nat)
    requires forall j :: 0 <= j < |list| ==> list[j] < |nodes| && (list[j] in ov <==> nodes[list[j]].FunctionDeclaration?)
    requires k < |list|
    ensures PlacedAt(nodes, list, ov, k)
  {
    assert forall j :: 0 <= j < k ==> list[..k][j] == list[j];
    CountIsDeclarations(nodes, list[..k], ov);
    ExpandAt(list, ov, k);
  }

  /** A list whose declarations all got their overrides: it grew by exactly
      its number of declarations, the original statements are all there in
      their original order, and each declaration is immediately followed by
      its own override. */
  lemma ListAfterRewrite(nodes: seq<Node>, list: seq<Handle>, ov: map<Handle, Handle>)
    requires forall j :: 0 <= j < |list| ==> list[j] < |nodes| && (list[j] in ov <==> nodes[list[j]].FunctionDeclaration?)
    requires forall x :: x in list ==> x !in ov.Values
    ensures |Expand(list, ov)| == |list| + CountDeclarations(nodes, list)
    ensures Strip(Expand(list, ov), ov.Values) == list
    ensures forall k :: 0 <= k < |list| ==> PlacedAt(nodes, list, ov, k)
  {
    ExpandLength(list, ov);
    CountIsDeclarations(nodes, list, ov);
    ExpandStrip(list, ov);
    forall k | 0 <= k < |list| ensures PlacedAt(nodes, list, ov, k) {
      OverrideFollows(nodes, list, ov, k);
    }
  }

  // ---------------------------------------------------------------------
  // The whole-tree walk (index.js:47-86)
  // ---------------------------------------------------------------------

  /** What the rewriter needs of its input: a tree (see IsTree) whose
      declarations sit directly in a `Program` or `BlockStatement` body and
      have ranges inside the source text. */
  ghost predicate WellFormed(content: string, nodes: seq<Node>, parents: seq<nat>) {
    && IsTree(nodes, parents)
    && (forall h :: 0 < h < |nodes| && nodes[h].FunctionDeclaration? ==> nodes[parents[h]].StatementList?)
    && (forall h :: 0 <= h < |nodes| && nodes[h].FunctionDeclaration? ==> Within(nodes[h].range, content))
  }

  /** The handles of all function declarations. */
  ghost function Declarations(nodes: seq<Node>): set<Handle> {
    set d | 0 <= d < |nodes| && nodes[d].FunctionDeclaration?
  }

  /** An original node after the rewrite: statement lists carry the
      overrides, every other node is as it was. */
  function Rewritten(n: Node, ov: map<Handle, Handle>): Node {
    if n.StatementList? then n.(body := Expand(n.body, ov)) else n
  }

  /** A pending visit in estraverse's work list: a node and its parent. */
  datatype Entry = Entry(node: Handle, parent: Handle)

  /** The entries estraverse pushes for the children of `parent`: last child
      first, so that they are popped in document order. */
  function Entries(children: seq<Handle>, parent: Handle): seq<Entry> {
    seq(|children|, k requires 0 <= k < |children| => Entry(children[|children| - 1 - k], parent))
  }

  lemma EntriesOf(children: seq<Handle>, parent: Handle)
    requires Distinct(children)
    ensures Distinct(Entries(children, parent))
    ensures forall e :: e in Entries(children, parent) <==> e.node in children && e.parent == parent
  {
    var es := Entries(children, parent);
    forall e: Entry | e.node in children && e.parent == parent ensures e in es {
      var j :| 0 <= j < |children| && children[j] == e.node;
      assert es[|children| - 1 - j] == e;
    }
  }

  /** The part of the walk's invariant about the arena: with the overrides
      `ov` made so far, every original node is as Rewritten says, and the
      records of every override are still those it was built with. */
  ghost predicate ArenaInvariant(content: string, orig: seq<Node>, nodes: seq<Node>, ov: map<Handle, Handle>) {
    && |orig| <= |nodes| == |orig| + OverrideSize * |ov|
    && (forall h {:trigger Rewritten(orig[h], ov)} :: 0 <= h < |orig| ==> nodes[h] == Rewritten(orig[h], ov))
    && (forall d :: d in ov ==> Built(content, orig, nodes, d, ov[d]))
  }

  /** The override of declaration `d` sits at `o`, beyond the original nodes. */
  ghost predicate Built(content: string, orig: seq<Node>, nodes: seq<Node>, d: Handle, o: Handle) {
    && d < |orig| && orig[d].FunctionDeclaration? && Within(orig[d].range, content)
    && |orig| <= o && o + OverrideSize <= |nodes|
    && nodes[o..o + OverrideSize] == OverrideRecords(o, orig[d].id, Capture(content, orig[d].range))
  }

  /** The part of the walk's invariant about the traversal: the nodes
      entered so far, the declarations among them (exactly those with an
      override), and the pending entries, each an unentered node with its
      parent; a child of an entered node is entered or pending. */
  ghost predicate WalkInvariant(orig: seq<Node>, parents: seq<nat>, ov: map<Handle, Handle>,
                                visited: set<Handle>, worklist: seq<Entry>) {
    && |parents| == |orig|
    && 0 in visited && (forall v :: v in visited ==> v < |orig|)
    && (forall d :: d in ov <==> d in visited && d < |orig| && orig[d].FunctionDeclaration?)
    && Distinct(worklist)
    && (forall e :: e in worklist ==>
          0 < e.node < |orig| && e.node !in visited && parents[e.node] == e.parent && e.parent in visited)
    && (forall v {:trigger parents[v]} :: v in visited && v != 0 ==> parents[v] in visited)
    && (forall v, c :: v in visited && v < |orig| && c in Children(orig[v]) ==> c in visited || Entry(c, v) in worklist)
  }

  /** What entering `node`, whose parent is `parent`, does to the arena
      `before`: anything but a function declaration is left alone; for a
      declaration the eight override records are appended, the parent's list
      gets the new statement spliced in right after the declaration's index
      in it, and no other node changes. */
  ghost predicate EnterEffect(content: string, before: seq<Node>, after: seq<Node>, node: Handle, parent: Handle)
    requires node < |before| && parent < |before|
    requires before[node].FunctionDeclaration? ==>
      before[parent].StatementList? && Within(before[node].range, content)
  {
    if !before[node].FunctionDeclaration? then after == before
    else
      var decl, o, list := before[node], |before|, before[parent].body;
      && |after| == o + OverrideSize
      && after[parent] == before[parent].(body := Splice<Handle>(list, IndexOf<Handle>(list, node) + 1, o))
      && (forall h :: 0 <= h < o && h != parent ==> after[h] == before[h])
      && after[o..] == OverrideRecords(o, decl.id, Capture(content, decl.range))
  }

  class Ast {
    /** The node objects of the tree; handle `h` is `nodes[h]`. */
    var nodes: seq<Node>

    constructor (nodes: seq<Node>)
      ensures this.nodes == nodes
    {
      this.nodes := nodes;
    }

    /** The `enter` callback (index.js:49-84) for `node`, whose parent is
        `parent`. Anything but a function declaration is left alone. A
        declaration gets its text captured, its index in `parent.body`
        looked up by identity, and a fresh override statement spliced into
        `parent.body` at that index plus one; no other node changes. */
    method Enter(content: string, node: Handle, parent: Handle)
      requires node < |nodes| && parent < |nodes|
      requires nodes[node].FunctionDeclaration? ==>
        nodes[parent].StatementList? && Within(nodes[node].range, content)
      modifies this
      ensures EnterEffect(content, old(nodes), nodes, node, parent)
      ensures old(nodes)[node].FunctionDeclaration? ==>
        var decl := old(nodes)[node];
        ToStringOverride(nodes, |old(nodes)|) == Some(Override(decl.id, Capture(content, decl.range)))
    {
      if !nodes[node].FunctionDeclaration? {
        return;
      }
      var code := Capture(content, nodes[node].range);
      var list := nodes[parent].body;
      var i := IndexOf<Handle>(list, node);
      var o := |nodes|;
      nodes := nodes + OverrideRecords(o, nodes[node].id, code);
      ghost var built := nodes;
      nodes := nodes[parent := nodes[parent].(body := Splice<Handle>(list, i + 1, o))];
      assert nodes[o..] == built[o..];
      OverrideRecognized(nodes, o, old(nodes)[node].id, code);
    }

    /** `addToStringForFunctionDeclarations(content, ast)`: estraverse walks
        the whole tree from the `Program` node 0, entering each node before
        its children and the children in document order. Afterwards each
        statement list holds, right after every declaration `d` in it, the
        override `ov[d]`; every declaration of the tree has one, and it reads
        back as `d.id.toString = function () { return <d's source text>; }`;
        no other original node changed, and only the override nodes were
        added. */
    method AddToStringForFunctionDeclarations(content: string, ghost parents: seq<nat>)
      returns (ghost ov: map<Handle, Handle>)
      requires WellFormed(content, nodes, parents)
      modifies this
      ensures ov.Keys == Declarations(old(nodes))
      ensures |nodes| == |old(nodes)| + OverrideSize * |ov|
      ensures forall h :: 0 <= h < |old(nodes)| ==> nodes[h] == Rewritten(old(nodes)[h], ov)
      ensures forall d :: d in ov ==>
        && |old(nodes)| <= ov[d] < |nodes|
        && ToStringOverride(nodes, ov[d]) == Some(Override(old(nodes)[d].id, Capture(content, old(nodes)[d].range)))
    {
      ghost var orig, n0 := nodes, |nodes|;
      // Entering the Program root does nothing: it is not a declaration.
      var worklist := Entries(Children(nodes[0]), 0);
      ghost var visited: set<Handle> := {0};
      // The nodes not entered yet, for termination.
      ghost var unvisited: set<Handle> := set h | 0 <= h < n0 && h !in visited;
      ov := map[];
      WalkStarts(content, orig, parents);
      while worklist != []
        invariant WalkInvariant(orig, parents, ov, visited, worklist)
        invariant ArenaInvariant(content, orig, nodes, ov)
        invariant forall h :: 0 <= h < n0 && h !in visited ==> h in unvisited
        decreases unvisited
      {
        var entry := worklist[|worklist| - 1];
        var node, parent := entry.node, entry.parent;
        ghost var before := nodes;
        EnterAllowed(content, orig, parents, nodes, ov, visited, worklist);
        Enter(content, node, parent);
        ghost var ov' := if orig[node].FunctionDeclaration? then ov[node := |before|] else ov;
        EnterKeepsArena(content, orig, parents, ov, ov', before, nodes, node, parent);
        WalkStep(orig, parents, ov, ov', |before|, visited, worklist);
        ChildrenKept(orig, parents, ov', visited, node);
        ov := ov';
        worklist := worklist[..|worklist| - 1] + Entries(Children(nodes[node]), node);
        visited := visited + {node};
        unvisited := unvisited - {node};
      }
      WalkEnds(orig, parents, ov, visited);
      OverridesReadBack(content, orig, nodes, ov);
    }
  }

  /** Before the loop: the root entered, its children pending, nothing built. */
  lemma WalkStarts(content: string, orig: seq<Node>, parents: seq<nat>)
    requires WellFormed(content, orig, parents)
    ensures WalkInvariant(orig, parents, map[], {0}, Entries(Children(orig[0]), 0))
    ensures ArenaInvariant(content, orig, orig, map[])
  {
    var worklist := Entries(Children(orig[0]), 0);
    EntriesOf(Children(orig[0]), 0);
    forall e | e in worklist
      ensures 0 < e.node < |orig| && e.node !in {0} && parents[e.node] == e.parent && e.parent in {0}
    {
      assert e.node in Children(orig[0]) && e.parent == 0;
    }
    forall h | 0 <= h < |orig| ensures orig[h] == Rewritten(orig[h], map[]) {
      if orig[h].StatementList? {
        ExpandWithout(orig[h].body, map[]);
      }
    }
  }

  /** The last pending entry may be entered: its node and parent are in the
      arena, and a declaration's parent holds a statement list. */
  lemma EnterAllowed(content: string, orig: seq<Node>, parents: seq<nat>, nodes: seq<Node>,
                     ov: map<Handle, Handle>, visited: set<Handle>, worklist: seq<Entry>)
    requires WellFormed(content, orig, parents)
    requires WalkInvariant(orig, parents, ov, visited, worklist)
    requires ArenaInvariant(content, orig, nodes, ov)
    requires worklist != []
    ensures var e := worklist[|worklist| - 1];
      && 0 < e.node < |orig| && e.parent < |orig| && parents[e.node] == e.parent
      && e.node !in ov && e.node !in visited
      && nodes[e.node].FunctionDeclaration? == orig[e.node].FunctionDeclaration?
      && (orig[e.node].FunctionDeclaration? ==>
            nodes[e.node] == orig[e.node] && orig[e.parent].StatementList? && nodes[e.parent].StatementList?
            && Within(orig[e.node].range, content))
  {
    var e := worklist[|worklist| - 1];
    assert e in worklist;
    assert nodes[e.node] == Rewritten(orig[e.node], ov);
    assert nodes[e.parent] == Rewritten(orig[e.parent], ov);
  }

  /** Entering `node` keeps the arena part of the invariant, with the
      override of a declaration recorded at the old end of the arena. */
  lemma EnterKeepsArena(content: string, orig: seq<Node>, parents: seq<nat>, ov: map<Handle, Handle>, ov': map<Handle, Handle>,
                        before: seq<Node>, after: seq<Node>, node: Handle, parent: Handle)
    requires IsTree(orig, parents)
    requires ArenaInvariant(content, orig, before, ov)
    requires 0 < node < |orig| && parent < |orig| && parents[node] == parent && node !in ov
    requires orig[node].FunctionDeclaration? ==> orig[parent].StatementList? && Within(orig[node].range, content)
    requires before[node] == orig[node] || !orig[node].FunctionDeclaration?
    requires before[node].FunctionDeclaration? == orig[node].FunctionDeclaration?
    requires before[node].FunctionDeclaration? ==> before[parent].StatementList?
    requires EnterEffect(content, before, after, node, parent)
    requires ov' == if orig[node].FunctionDeclaration? then ov[node := |before|] else ov
    ensures ArenaInvariant(content, orig, after, ov')
  {
    if orig[node].FunctionDeclaration? {
      ArenaStep(content, orig, parents, ov, before, after, node, parent);
    }
  }

  /** Entering declaration `d` keeps the arena part of the invariant, with
      `d`'s override added at the old end of the arena. */
  lemma ArenaStep(content: string, orig: seq<Node>, parents: seq<nat>, ov: map<Handle, Handle>,
                  before: seq<Node>, after: seq<Node>, d: Handle, p: Handle)
    requires IsTree(orig, parents)
    requires ArenaInvariant(content, orig, before, ov)
    requires 0 < d < |orig| && parents[d] == p && d !in ov && orig[d].FunctionDeclaration?
    requires Within(orig[d].range, content)
    requires orig[p].StatementList? && before[p].StatementList? && before[d] == orig[d]
    requires EnterEffect(content, before, after, d, p)
    ensures ArenaInvariant(content, orig, after, ov[d := |before|])
  {
    EnterUpdatesLists(orig, parents, ov, ov[d := |before|], before, after, d, p);
    OverridesKept(content, orig, ov, ov[d := |before|], before, after, d, p);
  }

  /** After entering declaration `d`, the overrides built before are intact
      and `d`'s own is at the old end of the arena. */
  lemma OverridesKept(content: string, orig: seq<Node>, ov: map<Handle, Handle>, ov': map<Handle, Handle>,
                      before: seq<Node>, after: seq<Node>, d: Handle, p: Handle)
    requires forall x :: x in ov ==> Built(content, orig, before, x, ov[x])
    requires d < |orig| && orig[d].FunctionDeclaration? && Within(orig[d].range, content)
    requires p < |orig| <= |before|
    requires |after| == |before| + OverrideSize
    requires forall h :: 0 <= h < |before| && h != p ==> after[h] == before[h]
    requires after[|before|..] == OverrideRecords(|before|, orig[d].id, Capture(content, orig[d].range))
    requires ov' == ov[d := |before|]
    ensures forall x :: x in ov' ==> Built(content, orig, after, x, ov'[x])
  {
  }

  /** Entering the last pending node and pushing its children keeps the
      traversal part of the invariant. */
  lemma WalkStep(orig: seq<Node>, parents: seq<nat>, ov: map<Handle, Handle>, ov': map<Handle, Handle>, o: Handle,
                 visited: set<Handle>, worklist: seq<Entry>)
    requires IsTree(orig, parents)
    requires WalkInvariant(orig, parents, ov, visited, worklist)
    requires worklist != []
    requires var n := worklist[|worklist| - 1].node;
      n < |orig| && ov' == if orig[n].FunctionDeclaration? then ov[n := o] else ov
    ensures var e := worklist[|worklist| - 1];
      WalkInvariant(orig, parents, ov', visited + {e.node},
                    worklist[..|worklist| - 1] + Entries(Children(orig[e.node]), e.node))
  {
    var e := worklist[|worklist| - 1];
    assert e in worklist;
    PendingStep(orig, parents, visited, worklist);
    ClosureStep(orig, visited, worklist);
  }

  /** Popping the last entry and pushing its node's children keeps the
      pending entries distinct, each an unentered node with its entered
      parent. */
  lemma PendingStep(orig: seq<Node>, parents: seq<nat>, visited: set<Handle>, worklist: seq<Entry>)
    requires IsTree(orig, parents)
    requires Distinct(worklist) && worklist != []
    requires forall e :: e in worklist ==>
      0 < e.node < |orig| && e.node !in visited && parents[e.node] == e.parent && e.parent in visited
    requires forall v :: v in visited ==> v < |orig|
    requires forall v {:trigger parents[v]} :: v in visited && v != 0 ==> parents[v] in visited
    ensures var e := worklist[|worklist| - 1];
      var worklist' := worklist[..|worklist| - 1] + Entries(Children(orig[e.node]), e.node);
      && Distinct(worklist')
      && forall x :: x in worklist' ==>
           0 < x.node < |orig| && x.node !in visited + {e.node} && parents[x.node] == x.parent
           && x.parent in visited + {e.node}
  {
    var e := worklist[|worklist| - 1];
    var node := e.node;
    var rest := worklist[..|worklist| - 1];
    var children := Children(orig[node]);
    var pushed := Entries(children, node);
    assert e in worklist;
    DistinctPop(worklist);
    EntriesOf(children, node);
    assert forall x :: x in rest ==> x in worklist;
    // Children of a node not yet entered are neither entered nor pending.
    forall x | x in pushed ensures 0 < x.node < |orig| && x.node !in visited && x !in rest
    {
      assert x.node in Children(orig[node]) && x.parent == node && node !in visited;
      assert parents[x.node] == node;
    }
    DistinctAppend(rest, pushed);
    forall x | x in rest + pushed
      ensures 0 < x.node < |orig| && x.node !in visited + {node} && parents[x.node] == x.parent
              && x.parent in visited + {node}
    {
      if x in rest {
        assert x in worklist;
        assert x.node != node;
      } else {
        assert x.node in Children(orig[node]);
      }
    }
  }

  /** After the last entry's node is entered and its children pushed, a
      child of an entered node is still entered or pending. */
  lemma ClosureStep(orig: seq<Node>, visited: set<Handle>, worklist: seq<Entry>)
    requires worklist != [] && worklist[|worklist| - 1].node < |orig|
    requires forall v, c :: v in visited && v < |orig| && c in Children(orig[v]) ==> c in visited || Entry(c, v) in worklist
    ensures var e := worklist[|worklist| - 1];
      var worklist' := worklist[..|worklist| - 1] + Entries(Children(orig[e.node]), e.node);
      forall v, c :: v in visited + {e.node} && v < |orig| && c in Children(orig[v]) ==>
        c in visited + {e.node} || Entry(c, v) in worklist'
  {
    var e := worklist[|worklist| - 1];
    var node := e.node;
    var rest := worklist[..|worklist| - 1];
    var pushed := Entries(Children(orig[node]), node);
    assert worklist == rest + [e];
    forall v: Handle, c: Handle | v in visited + {node} && v < |orig| && c in Children(orig[v])
      ensures c in visited + {node} || Entry(c, v) in rest + pushed
    {
      if v == node {
        var j :| 0 <= j < |Children(orig[node])| && Children(orig[node])[j] == c;
        assert pushed[|Children(orig[node])| - 1 - j] == Entry(c, v);
      } else if c !in visited && Entry(c, v) != e {
        assert Entry(c, v) in worklist;
        assert Entry(c, v) in rest;
      }
    }
  }

  /** The node being entered has no override among its children, so its
      child list after the enter step is its original one. */
  lemma ChildrenKept(orig: seq<Node>, parents: seq<nat>, ov: map<Handle, Handle>, visited: set<Handle>, node: Handle)
    requires IsTree(orig, parents)
    requires 0 < node < |orig| && node !in visited
    requires forall d :: d in ov ==> d in visited || d == node
    requires forall v :: v in visited ==> v < |orig|
    requires forall v {:trigger parents[v]} :: v in visited && v != 0 ==> parents[v] in visited
    ensures Children(Rewritten(orig[node], ov)) == Children(orig[node])
  {
    if orig[node].StatementList? {
      forall c | c in orig[node].body ensures c !in ov {
        assert c in Children(orig[node]);
      }
      ExpandWithout(orig[node].body, ov);
    }
  }

  /** After the loop nothing is pending, so every node was entered and every
      declaration has its override. */
  lemma WalkEnds(orig: seq<Node>, parents: seq<nat>, ov: map<Handle, Handle>, visited: set<Handle>)
    requires IsTree(orig, parents)
    requires WalkInvariant(orig, parents, ov, visited, [])
    ensures ov.Keys == Declarations(orig)
  {
    forall v: Handle, c: Handle | v in visited && v < |orig| && c in Children(orig[v]) ensures c in visited {
      assert Entry(c, v) !in [];
    }
    forall d | d in Declarations(orig) ensures d in ov {
      ClosedSetHoldsTree(orig, parents, visited, d);
    }
  }

  /** Each override reads back as it was built. */
  lemma OverridesReadBack(content: string, orig: seq<Node>, nodes: seq<Node>, ov: map<Handle, Handle>)
    requires ArenaInvariant(content, orig, nodes, ov)
    ensures forall d :: d in ov ==>
      && d < |orig| && orig[d].FunctionDeclaration? && Within(orig[d].range, content)
      && |orig| <= ov[d] < |nodes|
      && ToStringOverride(nodes, ov[d]) == Some(Override(orig[d].id, Capture(content, orig[d].range)))
  {
    forall d | d in ov
      ensures && d < |orig| && orig[d].FunctionDeclaration? && Within(orig[d].range, content)
              && ToStringOverride(nodes, ov[d]) == Some(Override(orig[d].id, Capture(content, orig[d].range)))
    {
      assert Built(content, orig, nodes, d, ov[d]);
      OverrideRecognized(nodes, ov[d], orig[d].id, Capture(content, orig[d].range));
    }
  }

  /** Entering declaration `d` extends its parent's list, as it stood, to the
      list with `d`'s override `o` as well. */
  lemma ParentListAfterEnter(orig: seq<Node>, parents: seq<nat>, ov: map<Handle, Handle>, d: Handle, o: Handle)
    requires IsTree(orig, parents)
    requires 0 < d < |orig| && orig[parents[d]].StatementList?
    requires d !in ov && d !in ov.Values
    ensures
      var list := Expand(orig[parents[d]].body, ov);
      Splice<Handle>(list, IndexOf<Handle>(list, d) + 1, o) == Expand(orig[parents[d]].body, ov[d := o])
  {
    var body := orig[parents[d]].body;
    assert d in Children(orig[parents[d]]);
    var k :| 0 <= k < |body| && body[k] == d;
    DistinctSplit(body, k);
    SpliceExpand(body, ov, k, o);
  }

  /** Entering declaration `d` leaves every other original node as it was. */
  lemma OtherNodeAfterEnter(orig: seq<Node>, parents: seq<nat>, ov: map<Handle, Handle>, d: Handle, o: Handle, h: Handle)
    requires IsTree(orig, parents)
    requires 0 < d < |orig| && h < |orig| && h != parents[d]
    ensures Rewritten(orig[h], ov[d := o]) == Rewritten(orig[h], ov)
  {
    if orig[h].StatementList? {
      assert d !in Children(orig[h]);
      ExpandUnaffected(orig[h].body, ov, d, o);
    }
  }

  /** The effect of entering declaration `d`, whose parent is `p`, on the
      original nodes: `p`'s list now also holds `d`'s override, allocated at
      the old end of the arena, and no other original node changed. */
  lemma EnterUpdatesLists(orig: seq<Node>, parents: seq<nat>, ov: map<Handle, Handle>, ov': map<Handle, Handle>,
                          before: seq<Node>, after: seq<Node>, d: Handle, p: Handle)
    requires IsTree(orig, parents)
    requires |orig| <= |before|
    requires forall h {:trigger Rewritten(orig[h], ov)} :: 0 <= h < |orig| ==> before[h] == Rewritten(orig[h], ov)
    requires forall x :: x in ov ==> ov[x] >= |orig|
    requires 0 < d < |orig| && parents[d] == p && d !in ov
    requires p < |orig| && orig[p].StatementList? && before[p].StatementList?
    requires |after| >= |before|
    requires after[p] == before[p].(body := Splice<Handle>(before[p].body, IndexOf<Handle>(before[p].body, d) + 1, |before|))
    requires forall h :: 0 <= h < |before| && h != p ==> after[h] == before[h]
    requires ov' == ov[d := |before|]
    ensures forall h {:trigger Rewritten(orig[h], ov')} :: 0 <= h < |orig| ==> after[h] == Rewritten(orig[h], ov')
  {
    assert d !in ov.Values;
    assert before[p] == Rewritten(orig[p], ov);
    ParentListAfterEnter(orig, parents, ov, d, |before|);
    assert after[p] == Rewritten(orig[p], ov');
    forall h | 0 <= h < |orig| && h != p
      ensures after[h] == Rewritten(orig[h], ov')
    {
      assert before[h] == Rewritten(orig[h], ov);
      OtherNodeAfterEnter(orig, parents, ov, d, |before|, h);
    }
  }

  /** The statement lists at the end of the walk, in terms of the original
      tree: every statement list of the input grew by exactly its number of
      declarations, keeps its original statements in their order, and has
      each declaration directly followed by its own override. */
  lemma StatementListsAfterWalk(content: string, orig: seq<Node>, parents: seq<nat>, ov: map<Handle, Handle>, p: Handle)
    requires WellFormed(content, orig, parents)
    requires ov.Keys == Declarations(orig)
    requires forall d :: d in ov ==> |orig| <= ov[d]
    requires p < |orig| && orig[p].StatementList?
    ensures var list, after := orig[p].body, Rewritten(orig[p], ov).body;
      && |after| == |list| + CountDeclarations(orig, list)
      && Strip(after, ov.Values) == list
      && forall k :: 0 <= k < |list| ==> PlacedAt(orig, list, ov, k)
  {
    var list := orig[p].body;
    forall j | 0 <= j < |list|
      ensures list[j] < |orig| && (list[j] in ov <==> orig[list[j]].FunctionDeclaration?)
    {
      assert list[j] in Children(orig[p]);
    }
    forall x | x in list ensures x !in ov.Values {
      assert x in Children(orig[p]);
    }
    ListAfterRewrite(orig, list, ov);
  }

  /** The program `function helloWorld(){}` as esprima parses it: the
      `Program` node 0 holds the declaration 1, whose name is the identifier
      2, whose body is the empty block 3 and whose range spans the whole
      text. */
  const HelloContent: string := "function helloWorld(){}"
  const HelloTree: seq<Node> :=
    [ StatementList(Program, [1]),
      FunctionDeclaration(2, [], 3, Range(0, |HelloContent|)),
      Identifier("helloWorld"),
      StatementList(BlockStatement, []) ]
  const HelloParents: seq<nat> := [0, 0, 1, 1]

  /** The program above is a well-formed input with the one declaration 1. */
  lemma HelloWellFormed()
    ensures WellFormed(HelloContent, HelloTree, HelloParents)
    ensures Declarations(HelloTree) == {1}
  {
    HelloIsTree();
    forall d | d in Declarations(HelloTree) ensures d == 1 {
      assert HelloTree[d].FunctionDeclaration?;
    }
  }

  /** The program above is a tree rooted at its `Program` node. */
  lemma HelloIsTree()
    ensures IsTree(HelloTree, HelloParents)
  {
  }

  /** After the rewrite the program is the declaration followed by an
      override of `helloWorld.toString` that returns the whole input. */
  method HelloWorld() returns (ast: Ast)
    ensures |ast.nodes| > 0 && ast.nodes[0].StatementList?
    ensures |ast.nodes[0].body| == 2 && ast.nodes[0].body[0] == 1
    ensures ToStringOverride(ast.nodes, ast.nodes[0].body[1]) == Some(Override(2, HelloContent))
    ensures |ast.nodes| > 2 && ast.nodes[1] == HelloTree[1] && ast.nodes[2] == Identifier("helloWorld")
  {
    HelloWellFormed();
    ast := new Ast(HelloTree);
    ghost var ov := ast.AddToStringForFunctionDeclarations(HelloContent, HelloParents);
    assert 1 in ov;
    assert ast.nodes[0] == Rewritten(HelloTree[0], ov);
    assert Expand([1], ov) == [1, ov[1]];
    assert ast.nodes[1] == Rewritten(HelloTree[1], ov);
    assert ast.nodes[2] == Rewritten(HelloTree[2], ov);
  }
}
