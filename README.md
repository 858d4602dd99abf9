# walkast, modelled in Dafny

`walkAst` (mod.ts) walks a syntax tree made of plain JavaScript records. The
walk is depth-first and pre-order. It calls a visitor `cb(node, parent)` on
every value that a node predicate accepts, and a visitor answer of exactly
`false` stops it from going below that node. By default a node is a non-null
object whose `_type` property holds a string. The walker reads the tree and
never changes it, so the model is pure. Each call of the visitor becomes one
`Visit(node, parent)` entry in a trace, and the walker is a set of functions
that return that trace.

- `values.dfy` (module `Values`): the JavaScript values the walker can tell
  apart. These are `undefined`, `null`, booleans, numbers, strings, arrays,
  and objects. An object is the list of its own enumerable properties, in
  enumeration order. The module also models `typeof`, reading a named
  property, the own values a `for...in` loop reaches, and a size measure.
- `walker.dfy` (module `Walker`): `walkAst`, `isAstNode`, `walk` and
  `walkArray`. `WalkFields` is the `for...in` loop of `walk`. It runs from
  field `i` on, so that it can recurse.
- `reference.dfy` (module `Reference`): a second definition of the traversal,
  written independently of the field loop. `Children` lists a node's children
  in order, and `PreOrder` is the pre-order trace over those children. The
  walker is proved to produce exactly this trace.
- `facts.dfy` (module `TraversalFacts`): what the trace promises. It covers
  the block each child's subtree takes in the trace, order, parents, pruning,
  containment in the tree, and a bound on the number of visits.
- `scenarios.dfy` (module `Scenarios`): small concrete trees with their
  traces.

The visitor is a pure function `(Value, Value) -> Value`. Only the answer
`Bool(false)` prunes. Any other answer continues the walk, including
`undefined` and falsy values such as `0`. The parent of the root is `Null`,
as in the call `walk(ast, null, cb, isNode)`. The predicate is a pure
function `Value -> bool`, and it defaults to `IsAstNode`.

Two consequences of the code's shape are worth stating on their own.
- An array held in a field always goes to `walkArray` and is never visited
  itself, even under a predicate that accepts everything (mod.ts:43-44,
  `Scenarios.AcceptAllSkipsArrayFields`). Such a predicate also visits
  primitives.
- An array element that the predicate rejects is skipped, even when it is an
  array that holds nodes (mod.ts:54-55, `Scenarios.NestedArrayNotSearched`).

Calling the walk twice on the same tree gives the same trace. In the model
this follows from `WalkAst` being a function, so no lemma states it.

## Model

| member | source | states |
|---|---|---|
| `Values.TypeOf` | mod.ts:30 | `typeof` gives `"object"` exactly for `null`, arrays and objects, and `"string"` exactly for strings |
| `Values.Lookup` | mod.ts:30 | reading a property gives `undefined` unless an own field with that key holds the value read |
| `Values.Get` | mod.ts:30 | reading `node._type` gives `undefined` on anything but an object, and otherwise the value of an own field with that key or `undefined` |
| `Values.LookupUnique` | mod.ts:30 | when keys are unique, as in a JavaScript object, reading a key gives the value of the one field with that key |
| `Values.OwnValues` | mod.ts:39-41 | the values the `for...in` loop filtered by `hasOwnProperty` reaches: all of an array's elements, one value per own field of an object, and none for a primitive |
| `Values.FieldValuesAt` | mod.ts:39-41 | the `for...in` loop filtered by `hasOwnProperty` reads one value per own field of an object, in field order: the `k`-th value read is the `k`-th field's |
| `Values.OwnValueSmaller` | mod.ts:39-41 | every value the field loop reads lies strictly inside the value it is read from |
| `Values.SizeOwnValues` | mod.ts:39-41 | a value's size is one more than the total size of its own values |
| `Values.WithinOwnValue` | mod.ts:39-41 | whatever lies inside a value the field loop reads lies strictly inside the value it is read from |
| `Values.WithinTransitive` | mod.ts:39-47 | lying inside a value is transitive |
| `Values.StrictlyWithinStep` | mod.ts:39-47 | what lies inside a value that lies strictly inside `z` lies strictly inside `z` |
| `Walker.IsAstNode` | mod.ts:29-31 | the default predicate holds only of objects whose `_type` property holds a string; `null` and arrays are never nodes |
| `Walker.IsAstNodeExactly` | mod.ts:29-31 | the default predicate holds exactly of objects that have a `_type` field holding a string; it never holds of `null`, primitives or arrays |
| `Walker.Prunes` | mod.ts:35 | only an answer of `false` prunes: `undefined`, `null`, `true`, `0` and `""` never do |
| `Walker.WalkAst` | mod.ts:22-26 | the trace is empty exactly when the predicate rejects the root; otherwise the first visit is the root with parent `null`; a root the visitor prunes is the only visit; every visited value is accepted by the predicate |
| `Walker.Walk` | mod.ts:34-37 | the walk of a node starts with that node and its parent; an answer of exactly `false` leaves it as the only visit; everything visited after it is accepted by the predicate |
| `Walker.WalkFields` | mod.ts:39-49 | every visit the field loop makes is of a value the predicate accepts; how each kind of field is handled (an array to `walkArray`, an accepted value walked, anything else skipped) is proved by `Reference.WalkFieldsIsPreOrder` |
| `Walker.WalkArray` | mod.ts:53-59 | every visit the array loop makes is of a value the predicate accepts; that exactly the accepted elements are walked, in order, is proved by `Reference.WalkArrayIsPreOrder` |
| `Reference.FilterMembers` | mod.ts:54-55 | the elements `walkArray` walks are exactly the elements the predicate accepts |
| `Reference.FieldChildrenMembers` | mod.ts:43-47 | a field contributes as children exactly the accepted elements of an array, or the field's own value when it is accepted and not an array |
| `Reference.ChildrenOfMembers` | mod.ts:39-49 | the children from a run of fields are exactly the accepted values that those fields reach directly or as array elements |
| `Reference.ChildrenMembers` | mod.ts:39-49 | a node's children are exactly the accepted values one field or one array element below it; nothing nested deeper is a child |
| `Reference.FilterSmaller` | mod.ts:54-55 | the accepted elements of an array are together no larger than the array's elements |
| `Reference.ChildrenOfSmaller` | mod.ts:39-49 | the children from a run of fields are together no larger than those fields' values |
| `Reference.ChildrenSmaller` | mod.ts:39-49 | a node's children are together smaller than the node, so the pre-order trace is well defined |
| `Reference.ChildStrictlyWithin` | mod.ts:43-47 | every child lies strictly inside its parent |
| `Reference.FilterAppend` | mod.ts:54 | filtering preserves element order: filtering two runs of elements gives the first run's result followed by the second's |
| `Reference.ChildrenOfAppend` | mod.ts:39 | children follow field order: the children of two runs of fields are the first run's followed by the second's |
| `Reference.PreOrderAllAppend` | mod.ts:54-58 | walking two runs of siblings gives the first run's trace followed by the second's |
| `Reference.WalkIsPreOrder` | mod.ts:34-49 | `walk` produces exactly the pre-order trace: the node, then, unless it is pruned, the pre-order traces of its children in order, each with the node as parent |
| `Reference.WalkFieldsIsPreOrder` | mod.ts:39-49 | the field loop from field `i` on produces the pre-order traces of the children that those fields contribute |
| `Reference.WalkArrayIsPreOrder` | mod.ts:53-59 | `walkArray` produces the pre-order traces of the accepted elements, in array order |
| `TraversalFacts.PreOrderAllBlock` | mod.ts:54-58 | in the walk of a run of siblings, the subtree of sibling `i` takes one contiguous, non-empty block, and that block is the walk of that sibling |
| `TraversalFacts.OffsetBounds` | mod.ts:54-58 | the first sibling's block starts at 0, and the blocks together fill the trace |
| `TraversalFacts.OffsetIncreasing` | mod.ts:39-49 | a later sibling's block starts strictly after an earlier sibling's block |
| `TraversalFacts.WalkUnpruned` | mod.ts:35-49 | when a node is not pruned, its trace is the node followed by the walks of its children |
| `TraversalFacts.PreOrderChildBlocks` | mod.ts:35-49 | in the pre-order trace of an unpruned node, the block of child `i` starts with that child, its parent is the node, and the block is the child's whole pre-order trace; the blocks fill the rest of the trace |
| `TraversalFacts.ChildBlocks` | mod.ts:35-49 | pre-order, children in order, for `walk` itself: the block of child `i` starts with that child, its parent is the node, and the block is the child's whole walk |
| `TraversalFacts.PrunedChildKeepsSiblings` | mod.ts:35-37 | a child that the visitor prunes takes exactly one entry of its parent's trace, the child itself; every later sibling is still visited, with the same parent |
| `TraversalFacts.PreOrderParents` | mod.ts:44-56 | every visit after the first in a node's walk has as its parent an earlier visited, unpruned node of which it is a child |
| `TraversalFacts.PreOrderAllParents` | mod.ts:44-56 | when the children's traces follow an earlier, unpruned visit of their parent, every visit in those traces has as its parent an earlier, unpruned visit of which it is a child (that child `i` is visited with the node itself as parent is `ChildBlocks`) |
| `TraversalFacts.SubtreeParents` | mod.ts:44-56 | wherever a child's trace is placed after an unpruned visit of its parent, every visit in that trace has as its parent an earlier, unpruned visit of which it is a child |
| `TraversalFacts.WalkAstParents` | mod.ts:22-56 | in the trace of `walkAst`, every visit after the first has as its parent an earlier visited, unpruned node of which it is a child; the parent is `null` exactly at the first visit |
| `TraversalFacts.PreOrderWithin` | mod.ts:34-49 | everything after the first entry of a node's walk lies strictly inside that node |
| `TraversalFacts.PreOrderAllWithin` | mod.ts:53-59 | the walks of a node's children visit only values strictly inside that node |
| `TraversalFacts.WalkDescendantsAfter` | mod.ts:34-49 | a node's visit comes before every other visit in its walk, and all the others are of values strictly inside it |
| `TraversalFacts.WalkAstWithinRoot` | mod.ts:22-26 | `walkAst` visits only the root and values inside it |
| `TraversalFacts.WalkBound` | mod.ts:34-49 | the walk of a node makes at most as many visits as there are accepted values in it |
| `TraversalFacts.WalkFieldsBound` | mod.ts:39-49 | the field loop makes at most as many visits as there are accepted values in the fields that remain |
| `TraversalFacts.WalkArrayBound` | mod.ts:53-59 | `walkArray` makes at most as many visits as there are accepted values in the array |
| `TraversalFacts.WalkAstBound` | mod.ts:22-26 | `walkAst` makes at most as many visits as there are accepted values in the tree |
| `Scenarios.ExprIsNode` | mod.ts:29-31 | objects with a string `_type` are nodes under the default predicate |
| `Scenarios.ExprIsLeaf` | mod.ts:39-49 | an expression holds no node, so its walk is the expression alone, whatever the visitor answers |
| `Scenarios.ProgramWalk` | mod.ts:22-59 | unless the visitor prunes the program, `{_type: "Program", body: [Expr 1, Expr 2]}` is visited as the program with parent `null`, then the two expressions in array order, each with the program as parent |
| `Scenarios.ProgramTrace` | mod.ts:22-59 | `{_type: "Program", body: [Expr 1, Expr 2]}` is visited as the program with parent `null`, then the two expressions in array order, each with the program as parent |
| `Scenarios.ZeroDoesNotPrune` | mod.ts:35 | a visitor that answers `0` prunes nothing, because only exactly `false` prunes |
| `Scenarios.PrunedProgramTrace` | mod.ts:35-37 | answering `false` for the program leaves the program as the only visit |
| `Scenarios.NoTypeNoVisits` | mod.ts:22-23 | `{foo: 1}` has no `_type`, so the walk visits nothing |
| `Scenarios.NestedArrayNotSearched` | mod.ts:54-55 | an expression inside an array nested in an array field is never reached |
| `Scenarios.NonNodeFieldSkipped` | mod.ts:43-47 | a node inside a field object that has no `_type` is never reached |
| `Scenarios.AcceptAllSkipsArrayFields` | mod.ts:43-44 | with a predicate that accepts everything, the elements of an array field are visited but the array itself is not |
| `Scenarios.RejectAllVisitsNothing` | mod.ts:22-23 | a predicate that rejects everything gives no visits, whatever the tree |

## Left out

- The `type-fest` import and the type aliases `Node`, `MaybeNode`, `Callback` and `NodeCheck` (mod.ts:1-13) are replaced by the `Value` datatype and the function types `Callback` and `NodeCheck`.
- Inherited enumerable properties are not modelled. `for...in` also walks the prototype chain, and `hasOwnProperty` then filters those properties out, so an object is modelled as its own enumerable properties only, in enumeration order.
- Numbers are integers and carry no floating-point behaviour. The walker only passes numbers along and never does arithmetic on them.
- Strings have no own values in the model. In JavaScript, `for...in` over a string primitive enumerates its characters. That matters only under a custom predicate that accepts strings, and with one that accepts one-character strings the JavaScript walk never ends unless the visitor prunes them.
- Walker.IsAstNode, Values.Get: named properties of arrays and strings are not modelled; only objects carry named properties here. In JavaScript an array whose `_type` property holds a string passes `isAstNode` (mod.ts:30), and `for...in` (mod.ts:39) also reaches an array's non-index keys. The model's arrays are their elements only, so `Get` gives `undefined` for them. The `_type` read at mod.ts:30 also goes through the prototype chain and sees non-enumerable and accessor properties, so an instance of a class with a `get _type()` accessor passes `isAstNode` in JavaScript; `Obj` lists only own enumerable fields, and `Get` reads only those. Array holes are not representable either: `for...of` (mod.ts:54) yields `undefined` for a hole, while `for...in` (mod.ts:39) skips it.
- Side effects and exceptions in the visitor or the predicate are not modelled. Both are pure functions here, and the visitor's calls are recorded as the trace. A visitor that throws aborts the whole JavaScript walk, and the model has no such case.
- Cyclic and shared-reference inputs are not modelled, nor is running out of stack. A value of a finite datatype cannot contain itself.
