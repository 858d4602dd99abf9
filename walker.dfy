/**
 * The walker of mod.ts: a depth-first, pre-order traversal that calls a
 * visitor on every value the node predicate accepts. Calls to the visitor are
 * recorded, in order, as the trace the functions below return.
 */
module Walker {
  import opened Values

  /** One call `cb(node, parent)` of the visitor. */
  datatype Visit = Visit(node: Value, parent: Value)

  /** The visitor: whatever it returns, only exactly `false` prunes. */
  type Callback = (Value, Value) -> Value

  /** The predicate that decides what counts as a node. */
  type NodeCheck = Value -> bool

  /** The default predicate: a non-null object whose `_type` holds a string. */
  predicate IsAstNode(node: Value): (b: bool)
    ensures b ==> node.Obj? && Get(node, "_type").Str?
    ensures node.Null? || node.Arr? ==> !b
  {
    node != Null && TypeOf(node) == "object" && TypeOf(Get(node, "_type")) == "string"
  }

  /** The default predicate holds exactly of objects whose `_type` field is a string. */
  lemma IsAstNodeExactly(v: Value)
    requires v.Obj? ==> UniqueKeys(v.fields)
    ensures IsAstNode(v) <==>
      v.Obj? && exists i :: 0 <= i < |v.fields| && v.fields[i].key == "_type" && v.fields[i].value.Str?
  {
    if v.Obj? && exists i :: 0 <= i < |v.fields| && v.fields[i].key == "_type" && v.fields[i].value.Str? {
      var i :| 0 <= i < |v.fields| && v.fields[i].key == "_type" && v.fields[i].value.Str?;
      LookupUnique(v.fields, "_type", i);
    }
  }

  /** The visitor's answer for `node` is exactly `false`. */
  predicate Prunes(cb: Callback, node: Value, parent: Value): (b: bool)
    ensures b ==> cb(node, parent).Bool?
    ensures cb(node, parent) in {Undefined, Null, Bool(true), Num(0), Str("")} ==> !b
  {
    cb(node, parent) == Bool(false)
  }

  /** `walkAst`: nothing happens unless the root is a node; otherwise the root is walked with parent `null`. */
  function WalkAst(ast: Value, cb: Callback, isNode: NodeCheck := IsAstNode): (r: seq<Visit>)
    ensures r == [] <==> !isNode(ast)
    ensures isNode(ast) ==> r[0] == Visit(ast, Null)
    ensures isNode(ast) && Prunes(cb, ast, Null) ==> r == [Visit(ast, Null)]
    ensures forall k :: 0 <= k < |r| ==> isNode(r[k].node)
  {
    if isNode(ast) then Walk(ast, Null, cb, isNode) else []
  }

  /**
   * `walk`: visit `node`, stop there if the visitor answers `false`, and
   * otherwise walk the own fields of `node` in order. Everything visited after
   * `node` itself is a node.
   */
  function Walk(node: Value, parent: Value, cb: Callback, isNode: NodeCheck): (r: seq<Visit>)
    ensures |r| >= 1 && r[0] == Visit(node, parent)
    ensures Prunes(cb, node, parent) ==> |r| == 1
    ensures forall k :: 1 <= k < |r| ==> isNode(r[k].node)
    decreases node, 1
  {
    if Prunes(cb, node, parent) then [Visit(node, parent)]
    else [Visit(node, parent)] + WalkFields(node, 0, cb, isNode)
  }

  /**
   * The `for...in` loop of `walk`, from the `i`-th own value of `owner` on:
   * an array field goes to `walkArray`, a field holding a node is walked, and
   * any other field is skipped. Every visit it makes is of a node.
   */
  function WalkFields(owner: Value, i: nat, cb: Callback, isNode: NodeCheck): (r: seq<Visit>)
    requires i <= |OwnValues(owner)|
    ensures forall k :: 0 <= k < |r| ==> isNode(r[k].node)
    decreases owner, 0, |OwnValues(owner)| - i
  {
    if i == |OwnValues(owner)| then []
    else
      OwnValueSmaller(owner, i);
      var value := OwnValues(owner)[i];
      (if value.Arr? then WalkArray(value.elems, owner, cb, isNode)
       else if isNode(value) then Walk(value, owner, cb, isNode)
       else [])
      + WalkFields(owner, i + 1, cb, isNode)
  }

  /** `walkArray`: walk, in order, the elements of `nodes` that are nodes, all with parent `parent`. */
  function WalkArray(nodes: seq<Value>, parent: Value, cb: Callback, isNode: NodeCheck): (r: seq<Visit>)
    ensures forall k :: 0 <= k < |r| ==> isNode(r[k].node)
    decreases nodes
  {
    if nodes == [] then []
    else
      (if isNode(nodes[0]) then Walk(nodes[0], parent, cb, isNode) else [])
      + WalkArray(nodes[1..], parent, cb, isNode)
  }
}
