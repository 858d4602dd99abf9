/**
 * A reference definition of the traversal, independent of the field loop:
 * first the list of children a node has under a predicate, then the
 * pre-order trace over that list. The walker of mod.ts is proved to produce
 * exactly this trace.
 */
module Reference {
  import opened Values
  import opened Walker

  /** `c` is reached through the own value `value`: as an element if it is an array, as the value itself otherwise. */
  predicate ReachedThrough(value: Value, c: Value) {
    if value.Arr? then c in value.elems else c == value
  }

  /** The elements of `nodes` that the predicate accepts, in order. */
  function Filter(nodes: seq<Value>, isNode: NodeCheck): seq<Value> {
    if nodes == [] then []
    else (if isNode(nodes[0]) then [nodes[0]] else []) + Filter(nodes[1..], isNode)
  }

  /** The children one own value contributes. */
  function FieldChildren(value: Value, isNode: NodeCheck): seq<Value> {
    if value.Arr? then Filter(value.elems, isNode)
    else if isNode(value) then [value]
    else []
  }

  /** The children a list of own values contributes, in field order. */
  function ChildrenOf(values: seq<Value>, isNode: NodeCheck): seq<Value> {
    if values == [] then []
    else FieldChildren(values[0], isNode) + ChildrenOf(values[1..], isNode)
  }

  /**
   * The children of `node`: the nodes among its non-array own values and among
   * the elements of its array own values. Nothing nested deeper is a child.
   */
  function Children(node: Value, isNode: NodeCheck): seq<Value> {
    ChildrenOf(OwnValues(node), isNode)
  }

  lemma {:induction false} FilterSmaller(nodes: seq<Value>, isNode: NodeCheck)
    ensures SizeAll(Filter(nodes, isNode)) <= SizeAll(nodes)
  {
    if nodes != [] {
      var head := if isNode(nodes[0]) then [nodes[0]] else [];
      FilterSmaller(nodes[1..], isNode);
      SizeAllAppend(head, Filter(nodes[1..], isNode));
      assert head == [] ==> head + Filter(nodes[1..], isNode) == Filter(nodes[1..], isNode);
    }
  }

  lemma {:induction false} ChildrenOfSmaller(values: seq<Value>, isNode: NodeCheck)
    ensures SizeAll(ChildrenOf(values, isNode)) <= SizeAll(values)
  {
    if values != [] {
      var head := FieldChildren(values[0], isNode);
      ChildrenOfSmaller(values[1..], isNode);
      SizeAllAppend(head, ChildrenOf(values[1..], isNode));
      if values[0].Arr? {
        FilterSmaller(values[0].elems, isNode);
      } else if isNode(values[0]) {
        assert SizeAll([values[0]]) == Size(values[0]) by { assert [values[0]][1..] == []; }
      }
    }
  }

  /** The children of a node are, all together, smaller than the node. */
  lemma ChildrenSmaller(node: Value, isNode: NodeCheck)
    ensures SizeAll(Children(node, isNode)) < Size(node)
  {
    SizeOwnValues(node);
    ChildrenOfSmaller(OwnValues(node), isNode);
  }

  /** The accepted elements are exactly the elements the predicate accepts. */
  lemma {:induction false} FilterMembers(nodes: seq<Value>, isNode: NodeCheck)
    ensures forall c :: c in Filter(nodes, isNode) <==> c in nodes && isNode(c)
  {
    if nodes != [] {
      FilterMembers(nodes[1..], isNode);
      assert forall c :: c in nodes <==> c == nodes[0] || c in nodes[1..];
    }
  }

  /** A field contributes exactly the accepted values it reaches. */
  lemma FieldChildrenMembers(value: Value, isNode: NodeCheck)
    ensures forall c :: c in FieldChildren(value, isNode) <==> isNode(c) && ReachedThrough(value, c)
  {
    if value.Arr? {
      FilterMembers(value.elems, isNode);
    }
  }

  /** A run of fields contributes exactly the accepted values one of them reaches. */
  lemma {:induction false} ChildrenOfMembers(values: seq<Value>, isNode: NodeCheck)
    ensures forall c :: c in ChildrenOf(values, isNode) <==> isNode(c) && exists v :: v in values && ReachedThrough(v, c)
  {
    if values != [] {
      FieldChildrenMembers(values[0], isNode);
      ChildrenOfMembers(values[1..], isNode);
      assert forall v :: v in values <==> v == values[0] || v in values[1..];
    }
  }

  /**
   * The children of `node` are exactly the accepted values one field or one
   * array element below it.
   */
  lemma ChildrenMembers(node: Value, isNode: NodeCheck)
    ensures forall c :: c in Children(node, isNode) <==> isNode(c) && exists v :: v in OwnValues(node) && ReachedThrough(v, c)
  {
    ChildrenOfMembers(OwnValues(node), isNode);
  }

  /** The children of a node are strictly inside it. */
  lemma ChildStrictlyWithin(node: Value, c: Value, isNode: NodeCheck)
    requires c in Children(node, isNode)
    ensures StrictlyWithin(c, node)
  {
    ChildrenMembers(node, isNode);
    var v :| v in OwnValues(node) && ReachedThrough(v, c);
    var k :| 0 <= k < |OwnValues(node)| && OwnValues(node)[k] == v;
    if v.Arr? {
      var j :| 0 <= j < |v.elems| && v.elems[j] == c;
      assert Within(c, v.elems[j]);
    }
    WithinOwnValue(c, node, k);
  }

  /** Pre-order: visit `node`, then, unless pruned, the pre-order traces of its children with parent `node`. */
  function PreOrder(node: Value, parent: Value, cb: Callback, isNode: NodeCheck): seq<Visit>
    decreases Size(node), 1
  {
    ChildrenSmaller(node, isNode);
    [Visit(node, parent)]
    + if Prunes(cb, node, parent) then [] else PreOrderAll(Children(node, isNode), node, cb, isNode)
  }

  /** The pre-order traces of `cs`, one after the other, all with parent `parent`. */
  function PreOrderAll(cs: seq<Value>, parent: Value, cb: Callback, isNode: NodeCheck): seq<Visit>
    decreases SizeAll(cs), 2
  {
    if cs == [] then []
    else PreOrder(cs[0], parent, cb, isNode) + PreOrderAll(cs[1..], parent, cb, isNode)
  }

  lemma {:induction false} FilterAppend(a: seq<Value>, b: seq<Value>, isNode: NodeCheck)
    ensures Filter(a + b, isNode) == Filter(a, isNode) + Filter(b, isNode)
  {
    if a != [] {
      assert (a + b)[0] == a[0] && (a + b)[1..] == a[1..] + b;
      FilterAppend(a[1..], b, isNode);
    } else {
      assert a + b == b;
    }
  }

  /** Field order: the children of two runs of fields are those of the first run, then those of the second. */
  lemma {:induction false} ChildrenOfAppend(a: seq<Value>, b: seq<Value>, isNode: NodeCheck)
    ensures ChildrenOf(a + b, isNode) == ChildrenOf(a, isNode) + ChildrenOf(b, isNode)
  {
    if a != [] {
      assert (a + b)[0] == a[0] && (a + b)[1..] == a[1..] + b;
      ChildrenOfAppend(a[1..], b, isNode);
    } else {
      assert a + b == b;
    }
  }

  lemma {:induction false} PreOrderAllAppend(a: seq<Value>, b: seq<Value>, parent: Value, cb: Callback, isNode: NodeCheck)
    ensures PreOrderAll(a + b, parent, cb, isNode)
         == PreOrderAll(a, parent, cb, isNode) + PreOrderAll(b, parent, cb, isNode)
    decreases |a|
  {
    if a != [] {
      var head := PreOrder(a[0], parent, cb, isNode);
      var rest, tail := PreOrderAll(a[1..], parent, cb, isNode), PreOrderAll(b, parent, cb, isNode);
      assert (a + b)[0] == a[0] && (a + b)[1..] == a[1..] + b;
      assert PreOrderAll(a + b, parent, cb, isNode) == head + PreOrderAll(a[1..] + b, parent, cb, isNode);
      PreOrderAllAppend(a[1..], b, parent, cb, isNode);
      assert head + (rest + tail) == (head + rest) + tail;
    } else {
      assert a + b == b;
    }
  }

  /** `walk` produces the pre-order trace. */
  lemma {:induction false} WalkIsPreOrder(node: Value, parent: Value, cb: Callback, isNode: NodeCheck)
    ensures Walk(node, parent, cb, isNode) == PreOrder(node, parent, cb, isNode)
    decreases node, 1
  {
    if !Prunes(cb, node, parent) {
      WalkFieldsIsPreOrder(node, 0, cb, isNode);
      assert OwnValues(node)[0..] == OwnValues(node);
    }
  }

  /** The field loop from field `i` on produces the pre-order traces of the children those fields contribute. */
  lemma {:induction false} WalkFieldsIsPreOrder(owner: Value, i: nat, cb: Callback, isNode: NodeCheck)
    requires i <= |OwnValues(owner)|
    ensures WalkFields(owner, i, cb, isNode)
         == PreOrderAll(ChildrenOf(OwnValues(owner)[i..], isNode), owner, cb, isNode)
    decreases owner, 0, |OwnValues(owner)| - i
  {
    var vals := OwnValues(owner);
    if i < |vals| {
      var value := vals[i];
      var head := FieldChildren(value, isNode);
      var tail := ChildrenOf(vals[i + 1..], isNode);
      assert ChildrenOf(vals[i..], isNode) == head + tail by {
        assert vals[i..][0] == value && vals[i..][1..] == vals[i + 1..];
      }
      OwnValueSmaller(owner, i);
      var first := if value.Arr? then WalkArray(value.elems, owner, cb, isNode)
                   else if isNode(value) then Walk(value, owner, cb, isNode)
                   else [];
      assert WalkFields(owner, i, cb, isNode) == first + WalkFields(owner, i + 1, cb, isNode);
      assert first == PreOrderAll(head, owner, cb, isNode) by {
        if value.Arr? {
          WalkArrayIsPreOrder(value.elems, owner, cb, isNode);
        } else if isNode(value) {
          WalkIsPreOrder(value, owner, cb, isNode);
          assert [value][1..] == [];
        }
      }
      WalkFieldsIsPreOrder(owner, i + 1, cb, isNode);
      PreOrderAllAppend(head, tail, owner, cb, isNode);
    }
  }

  /** `walkArray` produces the pre-order traces of the elements the predicate accepts. */
  lemma {:induction false} WalkArrayIsPreOrder(nodes: seq<Value>, parent: Value, cb: Callback, isNode: NodeCheck)
    ensures WalkArray(nodes, parent, cb, isNode) == PreOrderAll(Filter(nodes, isNode), parent, cb, isNode)
    decreases nodes
  {
    if nodes != [] {
      var head := if isNode(nodes[0]) then [nodes[0]] else [];
      WalkArrayIsPreOrder(nodes[1..], parent, cb, isNode);
      PreOrderAllAppend(head, Filter(nodes[1..], isNode), parent, cb, isNode);
      if isNode(nodes[0]) {
        WalkIsPreOrder(nodes[0], parent, cb, isNode);
        assert head[1..] == [];
      }
    }
  }
}
