/**
 * Small trees walked with the default predicate and with two fixed ones,
 * showing the visit order, pruning, the entry guard, and what is skipped.
 */
module Scenarios {
  import opened Values
  import opened Walker

  function Expr(n: int): Value {
    Obj([Field("_type", Str("Expr")), Field("value", Num(n))])
  }

  /** `{_type: "Program", body: [Expr 1, Expr 2]}` */
  function Program(): Value {
    Obj([Field("_type", Str("Program")), Field("body", Arr([Expr(1), Expr(2)]))])
  }

  /** A visitor that returns nothing. */
  function Continue(node: Value, parent: Value): Value {
    Undefined
  }

  /** A visitor that answers `false` for the program and nothing otherwise. */
  function PruneProgram(node: Value, parent: Value): Value {
    if node == Program() then Bool(false) else Undefined
  }

  /** A visitor that always answers `0`, which is falsy but not `false`. */
  function AnswerZero(node: Value, parent: Value): Value {
    Num(0)
  }

  lemma ExprIsNode(n: int)
    ensures IsAstNode(Expr(n)) && IsAstNode(Program())
  {
    assert Get(Expr(n), "_type") == Str("Expr");
    assert Get(Program(), "_type") == Str("Program");
  }

  /** An expression has no node below it, so its walk is the expression alone, whatever the visitor answers. */
  lemma ExprIsLeaf(n: int, parent: Value, cb: Callback)
    ensures Walk(Expr(n), parent, cb, IsAstNode) == [Visit(Expr(n), parent)]
  {
    var e := Expr(n);
    FieldValuesAt(e.fields);
    assert OwnValues(e) == [Str("Expr"), Num(n)];
    assert WalkFields(e, 2, cb, IsAstNode) == [];
    assert WalkFields(e, 1, cb, IsAstNode) == [];
    assert WalkFields(e, 0, cb, IsAstNode) == [];
  }

  /**
   * Unless the visitor prunes the program, the program is walked in pre-order:
   * the program with parent `null`, then both expressions, in array order, with
   * the program as parent.
   */
  lemma ProgramWalk(cb: Callback)
    requires !Prunes(cb, Program(), Null)
    ensures WalkAst(Program(), cb)
         == [Visit(Program(), Null), Visit(Expr(1), Program()), Visit(Expr(2), Program())]
  {
    var root := Program();
    ExprIsNode(1);
    ExprIsNode(2);
    ExprIsLeaf(1, root, cb);
    ExprIsLeaf(2, root, cb);
    assert OwnValues(root) == [Str("Program"), Arr([Expr(1), Expr(2)])];
    assert WalkArray([], root, cb, IsAstNode) == [];
    assert WalkArray([Expr(2)], root, cb, IsAstNode) == [Visit(Expr(2), root)];
    assert WalkArray([Expr(1), Expr(2)], root, cb, IsAstNode) == [Visit(Expr(1), root), Visit(Expr(2), root)];
    assert WalkFields(root, 2, cb, IsAstNode) == [];
    assert WalkFields(root, 1, cb, IsAstNode) == [Visit(Expr(1), root), Visit(Expr(2), root)];
    assert WalkFields(root, 0, cb, IsAstNode) == [Visit(Expr(1), root), Visit(Expr(2), root)];
  }

  /** A visitor that returns nothing walks the whole program. */
  lemma ProgramTrace()
    ensures WalkAst(Program(), Continue)
         == [Visit(Program(), Null), Visit(Expr(1), Program()), Visit(Expr(2), Program())]
  {
    ProgramWalk(Continue);
  }

  /** A falsy answer other than `false` does not prune: the whole program is still walked. */
  lemma ZeroDoesNotPrune()
    ensures WalkAst(Program(), AnswerZero)
         == [Visit(Program(), Null), Visit(Expr(1), Program()), Visit(Expr(2), Program())]
  {
    ProgramWalk(AnswerZero);
  }

  /** Answering `false` for the program leaves only the program. */
  lemma PrunedProgramTrace()
    ensures WalkAst(Program(), PruneProgram) == [Visit(Program(), Null)]
  {
    ExprIsNode(1);
  }

  /** `{foo: 1}` has no `_type`, so nothing is visited. */
  lemma NoTypeNoVisits()
    ensures WalkAst(Obj([Field("foo", Num(1))]), Continue) == []
  {
  }

  /** Arrays are not searched for arrays: an expression inside a nested array is not reached. */
  lemma NestedArrayNotSearched()
    ensures var root := Obj([Field("_type", Str("List")), Field("items", Arr([Arr([Expr(1)])]))]);
            WalkAst(root, Continue) == [Visit(root, Null)]
  {
    var root := Obj([Field("_type", Str("List")), Field("items", Arr([Arr([Expr(1)])]))]);
    assert Get(root, "_type") == Str("List");
    assert OwnValues(root) == [Str("List"), Arr([Arr([Expr(1)])])];
    assert !IsAstNode(Arr([Expr(1)]));
    assert WalkArray([Arr([Expr(1)])], root, Continue, IsAstNode) == [];
  }

  /** A field holding an object without `_type` is not descended into, so the node inside it is not reached. */
  lemma NonNodeFieldSkipped()
    ensures var root := Obj([Field("_type", Str("Decl")), Field("meta", Obj([Field("inner", Expr(1))]))]);
            WalkAst(root, Continue) == [Visit(root, Null)]
  {
    var root := Obj([Field("_type", Str("Decl")), Field("meta", Obj([Field("inner", Expr(1))]))]);
    assert Get(root, "_type") == Str("Decl");
    assert OwnValues(root) == [Str("Decl"), Obj([Field("inner", Expr(1))])];
    assert !IsAstNode(Obj([Field("inner", Expr(1))]));
  }

  function AcceptAll(v: Value): bool {
    true
  }

  /**
   * With a predicate that accepts everything, the elements of an array field
   * are visited but the array itself is not: an array field always goes to
   * `walkArray`, which never calls the visitor on the array.
   */
  lemma AcceptAllSkipsArrayFields()
    ensures var root := Obj([Field("a", Arr([Num(1)]))]);
            WalkAst(root, Continue, AcceptAll) == [Visit(root, Null), Visit(Num(1), root)]
  {
    var root := Obj([Field("a", Arr([Num(1)]))]);
    assert OwnValues(root) == [Arr([Num(1)])];
    assert Walk(Num(1), root, Continue, AcceptAll) == [Visit(Num(1), root)];
    assert WalkArray([Num(1)], root, Continue, AcceptAll) == [Visit(Num(1), root)];
  }

  function RejectAll(v: Value): bool {
    false
  }

  /** A predicate that rejects everything gives no visits, whatever the tree. */
  lemma RejectAllVisitsNothing(ast: Value, cb: Callback)
    ensures WalkAst(ast, cb, RejectAll) == []
  {
  }
}
