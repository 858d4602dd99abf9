/**
 * What the trace of mod.ts's walker promises: where each child's subtree sits
 * in the trace, who its parent is, what pruning leaves out, that nothing
 * outside the tree is visited, and how many visits there can be.
 */
module TraversalFacts {
  import opened Values
  import opened Walker
  import opened Reference

  // ---------------------------------------------------------------------------
  // Order: the trace of a node is the node followed by its children's subtrees
  // ---------------------------------------------------------------------------

  /** Where the subtree of child `i` starts in the concatenated traces of `cs`. */
  function Offset(cs: seq<Value>, parent: Value, cb: Callback, isNode: NodeCheck, i: nat): nat
    requires i <= |cs|
  {
    |PreOrderAll(cs[..i], parent, cb, isNode)|
  }

  lemma PreOrderAllSingle(c: Value, parent: Value, cb: Callback, isNode: NodeCheck)
    ensures PreOrderAll([c], parent, cb, isNode) == PreOrder(c, parent, cb, isNode)
  {
    assert [c][1..] == [];
  }

  /** The subtree of child `i` is the block between its offset and the next one. */
  lemma {:induction false} PreOrderAllBlock(cs: seq<Value>, parent: Value, cb: Callback, isNode: NodeCheck, i: nat)
    requires i < |cs|
    ensures Offset(cs, parent, cb, isNode, i) < Offset(cs, parent, cb, isNode, i + 1)
    ensures Offset(cs, parent, cb, isNode, i + 1) <= |PreOrderAll(cs, parent, cb, isNode)|
    ensures PreOrderAll(cs, parent, cb, isNode)[Offset(cs, parent, cb, isNode, i)..Offset(cs, parent, cb, isNode, i + 1)]
         == PreOrder(cs[i], parent, cb, isNode)
  {
    var before, after := cs[..i], cs[i + 1..];
    assert cs[..i + 1] == before + [cs[i]];
    assert cs == cs[..i + 1] + after;
    PreOrderAllAppend(before, [cs[i]], parent, cb, isNode);
    PreOrderAllAppend(cs[..i + 1], after, parent, cb, isNode);
    PreOrderAllSingle(cs[i], parent, cb, isNode);
  }

  lemma OffsetBounds(cs: seq<Value>, parent: Value, cb: Callback, isNode: NodeCheck)
    ensures Offset(cs, parent, cb, isNode, 0) == 0
    ensures Offset(cs, parent, cb, isNode, |cs|) == |PreOrderAll(cs, parent, cb, isNode)|
  {
    assert cs[..0] == [];
    assert cs[..|cs|] == cs;
  }

  /** Children come in the order of `Children`: a later child's subtree starts strictly later. */
  lemma {:induction false} OffsetIncreasing(cs: seq<Value>, parent: Value, cb: Callback, isNode: NodeCheck, i: nat, j: nat)
    requires i < j <= |cs|
    ensures Offset(cs, parent, cb, isNode, i) < Offset(cs, parent, cb, isNode, j)
    decreases j - i
  {
    PreOrderAllBlock(cs, parent, cb, isNode, i);
    if i + 1 < j {
      OffsetIncreasing(cs, parent, cb, isNode, i + 1, j);
    }
  }

  /** The trace of a node that is not pruned: the node, then the traces of its children. */
  lemma WalkUnpruned(node: Value, parent: Value, cb: Callback, isNode: NodeCheck)
    requires !Prunes(cb, node, parent)
    ensures Walk(node, parent, cb, isNode)
         == [Visit(node, parent)] + PreOrderAll(Children(node, isNode), node, cb, isNode)
  {
    WalkIsPreOrder(node, parent, cb, isNode);
  }

  /**
   * Pre-order with children in order: unless `node` is pruned, its trace is
   * `node` itself, then the block of each child in turn, the `i`-th block being
   * the walk of the `i`-th child with parent `node`, and nothing else.
   */
  lemma ChildBlocks(node: Value, parent: Value, cb: Callback, isNode: NodeCheck, i: nat)
    requires !Prunes(cb, node, parent)
    requires i < |Children(node, isNode)|
    ensures var r := Walk(node, parent, cb, isNode);
            var cs := Children(node, isNode);
            var s := 1 + Offset(cs, node, cb, isNode, i);
            var e := 1 + Offset(cs, node, cb, isNode, i + 1);
            |r| == 1 + Offset(cs, node, cb, isNode, |cs|)
            && 1 <= s < e <= |r|
            && r[s] == Visit(cs[i], node)
            && r[s..e] == Walk(cs[i], node, cb, isNode)
  {
    WalkIsPreOrder(node, parent, cb, isNode);
    WalkIsPreOrder(Children(node, isNode)[i], node, cb, isNode);
    PreOrderChildBlocks(node, parent, cb, isNode, i);
  }

  lemma PreOrderChildBlocks(node: Value, parent: Value, cb: Callback, isNode: NodeCheck, i: nat)
    requires !Prunes(cb, node, parent)
    requires i < |Children(node, isNode)|
    ensures |PreOrder(node, parent, cb, isNode)|
         == 1 + Offset(Children(node, isNode), node, cb, isNode, |Children(node, isNode)|)
    ensures 1 <= 1 + Offset(Children(node, isNode), node, cb, isNode, i)
              < 1 + Offset(Children(node, isNode), node, cb, isNode, i + 1)
             <= |PreOrder(node, parent, cb, isNode)|
    ensures PreOrder(node, parent, cb, isNode)[1 + Offset(Children(node, isNode), node, cb, isNode, i)]
         == Visit(Children(node, isNode)[i], node)
    ensures PreOrder(node, parent, cb, isNode)[1 + Offset(Children(node, isNode), node, cb, isNode, i)
                                               ..1 + Offset(Children(node, isNode), node, cb, isNode, i + 1)]
         == PreOrder(Children(node, isNode)[i], node, cb, isNode)
  {
    PreOrderUnpruned(node, parent, cb, isNode);
    SiblingBlocks(PreOrder(node, parent, cb, isNode), Visit(node, parent), Children(node, isNode), node, cb, isNode, i);
  }

  lemma PreOrderUnpruned(node: Value, parent: Value, cb: Callback, isNode: NodeCheck)
    requires !Prunes(cb, node, parent)
    ensures PreOrder(node, parent, cb, isNode)
         == [Visit(node, parent)] + PreOrderAll(Children(node, isNode), node, cb, isNode)
  {
  }

  /** In a trace made of one visit followed by the traces of siblings `cs`, sibling `i` starts and fills its own block. */
  lemma SiblingBlocks(r: seq<Visit>, x: Visit, cs: seq<Value>, q: Value, cb: Callback, isNode: NodeCheck, i: nat)
    requires r == [x] + PreOrderAll(cs, q, cb, isNode)
    requires i < |cs|
    ensures |r| == 1 + Offset(cs, q, cb, isNode, |cs|)
    ensures 1 <= 1 + Offset(cs, q, cb, isNode, i) < 1 + Offset(cs, q, cb, isNode, i + 1) <= |r|
    ensures r[1 + Offset(cs, q, cb, isNode, i)] == Visit(cs[i], q)
    ensures r[1 + Offset(cs, q, cb, isNode, i)..1 + Offset(cs, q, cb, isNode, i + 1)] == PreOrder(cs[i], q, cb, isNode)
  {
    PreOrderAllBlock(cs, q, cb, isNode, i);
    OffsetBounds(cs, q, cb, isNode);
    ConsBlock(r, x, PreOrderAll(cs, q, cb, isNode), Offset(cs, q, cb, isNode, i), Offset(cs, q, cb, isNode, i + 1),
      PreOrder(cs[i], q, cb, isNode), Visit(cs[i], q));
  }

  /** A block of `all` that starts with `first` is a block of `r == [x] + all`, one place further on. */
  lemma ConsBlock(r: seq<Visit>, x: Visit, all: seq<Visit>, s: nat, e: nat, block: seq<Visit>, first: Visit)
    requires r == [x] + all
    requires s < e <= |all| && all[s..e] == block && block[0] == first
    ensures |r| == 1 + |all| && 1 <= 1 + s < 1 + e <= |r|
    ensures r[1 + s] == first && r[1 + s..1 + e] == block
  {
    assert r[1 + s..1 + e] == all[s..e];
  }

  /**
   * Pruning: a child the visitor answers `false` for takes exactly one entry of
   * the trace, itself, and every later sibling is still visited, with parent
   * `node`, at the start of its own block.
   */
  lemma PrunedChildKeepsSiblings(node: Value, parent: Value, cb: Callback, isNode: NodeCheck, i: nat)
    requires !Prunes(cb, node, parent)
    requires i < |Children(node, isNode)|
    requires Prunes(cb, Children(node, isNode)[i], node)
    ensures var r := Walk(node, parent, cb, isNode);
            var cs := Children(node, isNode);
            var s := 1 + Offset(cs, node, cb, isNode, i);
            1 + Offset(cs, node, cb, isNode, i + 1) == s + 1 <= |r|
            && r[s..s + 1] == [Visit(cs[i], node)]
            && forall j :: i < j < |cs| ==>
                 1 + Offset(cs, node, cb, isNode, j) < |r| && r[1 + Offset(cs, node, cb, isNode, j)] == Visit(cs[j], node)
  {
    var cs := Children(node, isNode);
    ChildBlocks(node, parent, cb, isNode, i);
    forall j | i < j < |cs|
      ensures 1 + Offset(cs, node, cb, isNode, j) < |Walk(node, parent, cb, isNode)|
      ensures Walk(node, parent, cb, isNode)[1 + Offset(cs, node, cb, isNode, j)] == Visit(cs[j], node)
    {
      ChildBlocks(node, parent, cb, isNode, j);
    }
  }

  // ---------------------------------------------------------------------------
  // Parents
  // ---------------------------------------------------------------------------

  /**
   * The parent recorded at entry `k` is a node visited earlier, not pruned, of
   * which the node at `k` is a child.
   */
  ghost predicate ParentEarlier(r: seq<Visit>, k: int, cb: Callback, isNode: NodeCheck)
    requires 0 <= k < |r|
  {
    exists j :: 0 <= j < k && r[j].node == r[k].parent
      && r[k].node in Children(r[j].node, isNode) && !Prunes(cb, r[j].node, r[j].parent)
  }

  lemma ShiftParentEarlier(a: seq<Visit>, b: seq<Visit>, c: seq<Visit>, t: int, cb: Callback, isNode: NodeCheck)
    requires 0 <= t < |b| && ParentEarlier(b, t, cb, isNode)
    ensures ParentEarlier(a + b + c, |a| + t, cb, isNode)
  {
    var j :| 0 <= j < t && b[j].node == b[t].parent
      && b[t].node in Children(b[j].node, isNode) && !Prunes(cb, b[j].node, b[j].parent);
    var r := a + b + c;
    assert r[|a| + j] == b[j] && r[|a| + t] == b[t];
  }

  lemma {:induction false} PreOrderParents(node: Value, parent: Value, cb: Callback, isNode: NodeCheck)
    ensures forall k :: 1 <= k < |PreOrder(node, parent, cb, isNode)| ==>
      ParentEarlier(PreOrder(node, parent, cb, isNode), k, cb, isNode)
    decreases Size(node), 1
  {
    if !Prunes(cb, node, parent) {
      var cs := Children(node, isNode);
      ChildrenSmaller(node, isNode);
      PreOrderAllParents([Visit(node, parent)], cs, node, 0, cb, isNode);
    }
  }

  lemma {:induction false} PreOrderAllParents(pre: seq<Visit>, cs: seq<Value>, q: Value, j0: nat, cb: Callback, isNode: NodeCheck)
    requires j0 < |pre| && pre[j0].node == q && !Prunes(cb, q, pre[j0].parent)
    requires forall c :: c in cs ==> c in Children(q, isNode)
    ensures forall k :: |pre| <= k < |pre + PreOrderAll(cs, q, cb, isNode)| ==>
      ParentEarlier(pre + PreOrderAll(cs, q, cb, isNode), k, cb, isNode)
    decreases SizeAll(cs), 3
  {
    if cs != [] {
      var b := PreOrder(cs[0], q, cb, isNode);
      var rest := PreOrderAll(cs[1..], q, cb, isNode);
      var r := pre + b + rest;
      assert pre + PreOrderAll(cs, q, cb, isNode) == r;
      SubtreeParents(pre, cs[0], rest, q, j0, cb, isNode);
      assert (pre + b)[j0] == pre[j0];
      assert forall c :: c in cs[1..] ==> c in cs;
      PreOrderAllParents(pre + b, cs[1..], q, j0, cb, isNode);
      forall k | |pre| <= k < |r| ensures ParentEarlier(r, k, cb, isNode) {
        if k >= |pre| + |b| {
          assert |pre + b| <= k < |(pre + b) + rest|;
        }
      }
    }
  }

  /** The walk of child `c` of an unpruned node visited at `j0` records correct parents wherever it is placed after `pre`. */
  lemma SubtreeParents(pre: seq<Visit>, c: Value, rest: seq<Visit>, q: Value, j0: nat, cb: Callback, isNode: NodeCheck)
    requires j0 < |pre| && pre[j0].node == q && !Prunes(cb, q, pre[j0].parent)
    requires c in Children(q, isNode)
    ensures forall k :: |pre| <= k < |pre| + |PreOrder(c, q, cb, isNode)| ==>
      ParentEarlier(pre + PreOrder(c, q, cb, isNode) + rest, k, cb, isNode)
    decreases Size(c), 2
  {
    var b := PreOrder(c, q, cb, isNode);
    var r := pre + b + rest;
    PreOrderParents(c, q, cb, isNode);
    forall k | |pre| <= k < |pre| + |b| ensures ParentEarlier(r, k, cb, isNode) {
      if k == |pre| {
        assert r[k] == b[0] == Visit(c, q) && r[j0] == pre[j0];
        assert r[j0].node == r[k].parent && r[k].node in Children(r[j0].node, isNode)
          && !Prunes(cb, r[j0].node, r[j0].parent);
      } else {
        ShiftParentEarlier(pre, b, rest, k - |pre|, cb, isNode);
      }
    }
  }

  /**
   * Parents in the trace of `walkAst`: every visit after the first records as
   * its parent a node visited earlier, not pruned, of which it is a child; and
   * the parent is `null` exactly at the first visit, the root.
   */
  lemma WalkAstParents(ast: Value, cb: Callback, isNode: NodeCheck)
    ensures var r := WalkAst(ast, cb, isNode);
            (forall k :: 1 <= k < |r| ==> ParentEarlier(r, k, cb, isNode))
            && (forall k :: 0 <= k < |r| ==> (r[k].parent == Null <==> k == 0))
  {
    var r := WalkAst(ast, cb, isNode);
    if isNode(ast) {
      WalkIsPreOrder(ast, Null, cb, isNode);
      PreOrderParents(ast, Null, cb, isNode);
      forall k | 1 <= k < |r| ensures r[k].parent != Null {
        ParentIsNotNull(r, k, cb, isNode);
      }
    }
  }

  /** `null` has no children, so it is never a recorded parent. */
  lemma ParentIsNotNull(r: seq<Visit>, k: int, cb: Callback, isNode: NodeCheck)
    requires 0 <= k < |r| && ParentEarlier(r, k, cb, isNode)
    ensures r[k].parent != Null
  {
    var j :| 0 <= j < k && r[j].node == r[k].parent
      && r[k].node in Children(r[j].node, isNode) && !Prunes(cb, r[j].node, r[j].parent);
    assert Children(Null, isNode) == [];
  }

  // ---------------------------------------------------------------------------
  // Nothing outside the tree is visited
  // ---------------------------------------------------------------------------

  lemma {:induction false} PreOrderWithin(node: Value, parent: Value, cb: Callback, isNode: NodeCheck)
    ensures forall k :: 1 <= k < |PreOrder(node, parent, cb, isNode)| ==>
      StrictlyWithin(PreOrder(node, parent, cb, isNode)[k].node, node)
    decreases Size(node), 1
  {
    if !Prunes(cb, node, parent) {
      var cs := Children(node, isNode);
      forall c | c in cs ensures StrictlyWithin(c, node) {
        ChildStrictlyWithin(node, c, isNode);
      }
      ChildrenSmaller(node, isNode);
      PreOrderAllWithin(cs, node, cb, isNode);
    }
  }

  lemma {:induction false} PreOrderAllWithin(cs: seq<Value>, q: Value, cb: Callback, isNode: NodeCheck)
    requires forall c :: c in cs ==> StrictlyWithin(c, q)
    ensures forall k :: 0 <= k < |PreOrderAll(cs, q, cb, isNode)| ==>
      StrictlyWithin(PreOrderAll(cs, q, cb, isNode)[k].node, q)
    decreases SizeAll(cs), 2
  {
    if cs != [] {
      var b := PreOrder(cs[0], q, cb, isNode);
      var rest := PreOrderAll(cs[1..], q, cb, isNode);
      var r: seq<Visit> := b + rest;
      assert PreOrderAll(cs, q, cb, isNode) == r;
      assert forall c :: c in cs[1..] ==> c in cs;
      PreOrderAllWithin(cs[1..], q, cb, isNode);
      PreOrderWithin(cs[0], q, cb, isNode);
      forall k | 0 <= k < |r| ensures StrictlyWithin(r[k].node, q) {
        if k == 0 {
          assert r[k] == b[0] == Visit(cs[0], q);
        } else if k < |b| {
          assert r[k] == b[k];
          StrictlyWithinStep(b[k].node, cs[0], q);
        } else {
          assert r[k] == rest[k - |b|];
        }
      }
    }
  }

  /**
   * Pre-order on the tree: the walk of `node` visits `node` first and then only
   * values that lie strictly inside `node`.
   */
  lemma WalkDescendantsAfter(node: Value, parent: Value, cb: Callback, isNode: NodeCheck)
    ensures var r := Walk(node, parent, cb, isNode);
            r[0].node == node && forall k :: 1 <= k < |r| ==> StrictlyWithin(r[k].node, node)
  {
    WalkIsPreOrder(node, parent, cb, isNode);
    PreOrderWithin(node, parent, cb, isNode);
  }

  /** Every value `walkAst` visits is the root or lies inside it. */
  lemma WalkAstWithinRoot(ast: Value, cb: Callback, isNode: NodeCheck)
    ensures forall k :: 0 <= k < |WalkAst(ast, cb, isNode)| ==> Within(WalkAst(ast, cb, isNode)[k].node, ast)
  {
    if isNode(ast) {
      WalkDescendantsAfter(ast, Null, cb, isNode);
    }
  }

  // ---------------------------------------------------------------------------
  // How many visits
  // ---------------------------------------------------------------------------

  /** The number of values in `v`, itself included, that the predicate accepts, wherever they sit. */
  function NodeCount(v: Value, isNode: NodeCheck): nat
    decreases Size(v), 1
  {
    SizeOwnValues(v);
    (if isNode(v) then 1 else 0) + NodeCountAll(OwnValues(v), isNode)
  }

  function NodeCountAll(vs: seq<Value>, isNode: NodeCheck): nat
    decreases SizeAll(vs), 2
  {
    if vs == [] then 0 else NodeCount(vs[0], isNode) + NodeCountAll(vs[1..], isNode)
  }

  lemma {:induction false} WalkBound(node: Value, parent: Value, cb: Callback, isNode: NodeCheck)
    requires isNode(node)
    ensures |Walk(node, parent, cb, isNode)| <= NodeCount(node, isNode)
    decreases node, 1
  {
    if !Prunes(cb, node, parent) {
      WalkFieldsBound(node, 0, cb, isNode);
      assert OwnValues(node)[0..] == OwnValues(node);
    }
  }

  lemma {:induction false} WalkFieldsBound(owner: Value, i: nat, cb: Callback, isNode: NodeCheck)
    requires i <= |OwnValues(owner)|
    ensures |WalkFields(owner, i, cb, isNode)| <= NodeCountAll(OwnValues(owner)[i..], isNode)
    decreases owner, 0, |OwnValues(owner)| - i
  {
    var vals := OwnValues(owner);
    if i < |vals| {
      var value := vals[i];
      OwnValueSmaller(owner, i);
      assert NodeCountAll(vals[i..], isNode) == NodeCount(value, isNode) + NodeCountAll(vals[i + 1..], isNode) by {
        assert vals[i..][0] == value && vals[i..][1..] == vals[i + 1..];
      }
      WalkFieldsBound(owner, i + 1, cb, isNode);
      if value.Arr? {
        WalkArrayBound(value.elems, owner, cb, isNode);
      } else if isNode(value) {
        WalkBound(value, owner, cb, isNode);
      }
    }
  }

  lemma {:induction false} WalkArrayBound(nodes: seq<Value>, parent: Value, cb: Callback, isNode: NodeCheck)
    ensures |WalkArray(nodes, parent, cb, isNode)| <= NodeCountAll(nodes, isNode)
    decreases nodes
  {
    if nodes != [] {
      WalkArrayBound(nodes[1..], parent, cb, isNode);
      if isNode(nodes[0]) {
        WalkBound(nodes[0], parent, cb, isNode);
      }
    }
  }

  /** `walkAst` makes at most as many visits as the tree holds values the predicate accepts. */
  lemma WalkAstBound(ast: Value, cb: Callback, isNode: NodeCheck)
    ensures |WalkAst(ast, cb, isNode)| <= NodeCount(ast, isNode)
  {
    if isNode(ast) {
      WalkBound(ast, Null, cb, isNode);
    }
  }
}
