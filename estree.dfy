/** The part of the ESTree syntax tree (the format esprima produces and
    escodegen consumes) that the rewriter reads or builds. The tree lives in an
    arena: node objects are records in a sequence and a node's identity is its
    handle, so that two declarations with identical text are still different
    nodes. */
module Estree {
  import opened JsArray

  /** The identity of one node object. */
  type Handle = nat

  /** esprima's `range` (parsing with `{range: true}`): the node's first
      character offset and the offset one past its last character. */
  datatype Range = Range(start: nat, end: nat)

  /** The two node types whose `body` is an array of statements. */
  datatype ListKind = Program | BlockStatement

  datatype Node =
    | FunctionDeclaration(id: Handle, params: seq<Handle>, block: Handle, range: Range)
    | StatementList(kind: ListKind, body: seq<Handle>)
    | Identifier(name: string)
    | Literal(value: string)
    | ExpressionStatement(expression: Handle)
    | AssignmentExpression(operator: string, left: Handle, right: Handle)
    | MemberExpression(obj: Handle, property: Handle)
    | FunctionExpression(params: seq<Handle>, block: Handle)
    | ReturnStatement(argument: Handle)
      /** Any other node type, with its child nodes in traversal order. */
    | OtherNode(tag: string, children: seq<Handle>)

  /** The child nodes estraverse visits, in the order of its visitor keys
      (`id`, `params`, `body` for functions). */
  function Children(n: Node): seq<Handle> {
    match n
    case FunctionDeclaration(id, params, block, _) => [id] + params + [block]
    case StatementList(_, body) => body
    case Identifier(_) => []
    case Literal(_) => []
    case ExpressionStatement(e) => [e]
    case AssignmentExpression(_, left, right) => [left, right]
    case MemberExpression(obj, property) => [obj, property]
    case FunctionExpression(params, block) => params + [block]
    case ReturnStatement(a) => [a]
    case OtherNode(_, children) => children
  }

  /** `nodes` is a tree rooted at the `Program` node 0, and `parents` names
      each other node's parent: every child handle is in range and occurs in
      exactly one child list, once, and a parent's handle precedes its
      children's (any tree can be numbered so). */
  ghost predicate IsTree(nodes: seq<Node>, parents: seq<nat>) {
    && |nodes| > 0
    && |parents| == |nodes|
    && nodes[0].StatementList? && nodes[0].kind == Program
    && (forall h :: 0 < h < |nodes| ==> parents[h] < h && h in Children(nodes[parents[h]]))
    && (forall p, c {:trigger c in Children(nodes[p])} :: 0 <= p < |nodes| && c in Children(nodes[p]) ==> 0 < c < |nodes| && parents[c] == p)
    && (forall p :: 0 <= p < |nodes| ==> Distinct(Children(nodes[p])))
  }

  /** Every handle in `visited` whose children are all in `visited` too:
      then the whole tree is in it. */
  lemma {:induction false} ClosedSetHoldsTree(nodes: seq<Node>, parents: seq<nat>, visited: set<Handle>, h: Handle)
    requires IsTree(nodes, parents)
    requires 0 in visited
    requires forall v, c :: v in visited && v < |nodes| && c in Children(nodes[v]) ==> c in visited
    requires h < |nodes|
    ensures h in visited
    decreases h
  {
    if h != 0 {
      ClosedSetHoldsTree(nodes, parents, visited, parents[h]);
    }
  }
}
