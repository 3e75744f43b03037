/** The selection evaluator `traverse_ast` (lines 26-201) and the entry point
    `atomselect` (lines 204-221). */
module Evaluator {
  import opened Errors
  import opened Values
  import opened Molecules
  import opened Numeric
  import opened Operators
  import Spatial

  /** A parsed selection: a node is its operation tag (`node[0]`) followed by its
      children, each a literal or a nested node. */
  datatype Node = Node(op: string, args: seq<Child>)
  datatype Child = Lit(lit: Literal) | Sub(node: Node)

  /** The operation tags the dispatcher knows. */
  const Operations: set<string> := {
    "molecule", "molprop_int_eq", "molprop_str_eq", "molprop_int_modulo", "logop",
    "uminus", "grouped", "numprop", "comp", "func", "mathop", "sameas", "within", "exwithin"
  }

  /** Lines 35-201: the rule for tag `op` applied to the evaluated children `vals`
      (`node[k]` is `vals[k - 1]`). Each rule reads the children it needs in the order
      the source reads them, so a missing child fails before, or instead of, the rule's
      own checks exactly where the source's indexing would. */
  function Dispatch(ctx: Context, op: string, vals: seq<Value>): (r: Result<Value>)
    requires ctx.Valid()
    ensures op !in Operations ==> r == Err(UnknownOperation)
    ensures op == "logop" && |vals| >= 1 && vals[0] !in {Str("and"), Str("or"), Str("not")} ==>
              r == Err(UnknownLogicalOp)
    ensures op == "func" && |vals| >= 1 && vals[0] !in {Str("abs"), Str("sqr"), Str("sqrt")} ==>
              r == Err(UnknownFunction)
    ensures r.Ok? && AllShaped(vals, ctx.N()) ==> r.value.Shaped(ctx.N())
  {
    var n := ctx.N();
    if op == "molecule" then
      var k :- Arg(vals, 1);
      Keyword(ctx, k)
    else if op == "molprop_int_eq" || op == "molprop_str_eq" then
      var p :- Arg(vals, 1);
      var y :- Arg(vals, 2);
      PropertyMatch(ctx, p, y)
    else if op == "molprop_int_modulo" then
      var p :- Arg(vals, 1);
      var d :- Arg(vals, 2);
      var rem :- Arg(vals, 3);
      ModuloTest(ctx, p, d, rem)
    else if op == "logop" then
      var o :- Arg(vals, 1);
      if o == Str("and") then
        var a :- Arg(vals, 2);
        var b :- Arg(vals, 3);
        Logic(a, b, (x, y) => x && y)
      else if o == Str("or") then
        var a :- Arg(vals, 2);
        var b :- Arg(vals, 3);
        Logic(a, b, (x, y) => x || y)
      else if o == Str("not") then
        var a :- Arg(vals, 2);
        Not(a)
      else Err(UnknownLogicalOp)
    else if op == "uminus" then
      var a :- Arg(vals, 1);
      MapNum(a, Neg)
    else if op == "grouped" then
      Arg(vals, 1)
    else if op == "numprop" then
      var p :- Arg(vals, 1);
      NumProp(ctx, p)
    else if op == "comp" then
      var o :- Arg(vals, 1);
      var a :- Arg(vals, 2);
      var b :- Arg(vals, 3);
      Comparison(o, a, b)
    else if op == "func" then
      var f :- Arg(vals, 1);
      if f == Str("abs") then
        var a :- Arg(vals, 2);
        MapNum(a, AbsR)
      else if f == Str("sqr") then
        var a :- Arg(vals, 2);
        Arith(a, a, (x, y) => x * y)
      else if f == Str("sqrt") then
        var a :- Arg(vals, 2);
        Sqrt(a, ctx.kernels.sqrt)
      else Err(UnknownFunction)
    else if op == "mathop" then
      var o :- Arg(vals, 1);
      var a :- Arg(vals, 2);
      var b :- Arg(vals, 3);
      MathOp(o, a, b)
    else if op == "sameas" then
      var p :- Arg(vals, 1);
      var sel :- Arg(vals, 2);
      SameAsNode(ctx, p, sel)
    else if op == "within" || op == "exwithin" then
      var c :- Arg(vals, 1);
      var s :- Arg(vals, 2);
      Spatial.Within(n, ctx.kernels.near, op == "exwithin", c, s)
    else
      Err(UnknownOperation)
  }

  /** Evaluates a tree bottom-up: every child first, then the node's own rule. */
  function Eval(ctx: Context, node: Node): (r: Result<Value>)
    requires ctx.Valid()
    ensures r.Ok? ==> r.value.Shaped(ctx.N())
    decreases node, 1
  {
    var vals :- EvalArgs(ctx, node, 0);
    Dispatch(ctx, node.op, vals)
  }

  /** The children from position k on, left to right: a literal stands for itself, a
      nested node for its value, and the first failure abandons the rest. */
  function EvalArgs(ctx: Context, node: Node, k: nat): (r: Result<seq<Value>>)
    requires ctx.Valid() && k <= |node.args|
    ensures r.Ok? ==> |r.value| == |node.args| - k && AllShaped(r.value, ctx.N())
    decreases node, 0, |node.args| - k
  {
    if k == |node.args| then Ok([])
    else
      var v :- match node.args[k] { case Lit(l) => Ok(FromLiteral(l)) case Sub(s) => Eval(ctx, s) };
      var rest :- EvalArgs(ctx, node, k + 1);
      Ok([v] + rest)
  }

  /** `vals` in front of the outcome of the remaining children. */
  function Prepend(vals: seq<Value>, r: Result<seq<Value>>): Result<seq<Value>> {
    if r.Ok? then Ok(vals + r.value) else r
  }

  /** One step of the children's evaluation: child k's value in front of the rest. */
  lemma EvalArgsStep(ctx: Context, node: Node, k: nat, v: Value)
    requires ctx.Valid() && k < |node.args|
    requires match node.args[k] { case Lit(l) => v == FromLiteral(l) case Sub(s) => Eval(ctx, s) == Ok(v) }
    ensures EvalArgs(ctx, node, k) == Prepend([v], EvalArgs(ctx, node, k + 1))
  {
  }

  lemma PrependTwice(a: seq<Value>, b: seq<Value>, r: Result<seq<Value>>)
    ensures Prepend(a, Prepend(b, r)) == Prepend(a + b, r)
  {
    if r.Ok? { assert a + (b + r.value) == (a + b) + r.value; }
  }

  /** `traverse_ast` as written: the node's rule runs on its children's values, and
      `within` / `exwithin` fill a fresh mask in place. */
  method TraverseAst(ctx: Context, node: Node) returns (r: Result<Value>)
    requires ctx.Valid()
    ensures r == Eval(ctx, node)
    decreases node, 1
  {
    var children :- TraverseChildren(ctx, node);
    r := Apply(ctx, node.op, children);
  }

  /** Lines 27-33: the children are evaluated into a copy of the node one position at a
      time, left to right, and the first failure propagates. */
  method TraverseChildren(ctx: Context, node: Node) returns (r: Result<seq<Value>>)
    requires ctx.Valid()
    ensures r == EvalArgs(ctx, node, 0)
    decreases node, 0
  {
    var vals := new Value[|node.args|];
    var i := 0;
    assert vals[..0] == [];
    assert Prepend([], EvalArgs(ctx, node, 0)) == EvalArgs(ctx, node, 0) by {
      if EvalArgs(ctx, node, 0).Ok? { assert [] + EvalArgs(ctx, node, 0).value == EvalArgs(ctx, node, 0).value; }
    }
    while i < |node.args|
      invariant 0 <= i <= |node.args|
      invariant EvalArgs(ctx, node, 0) == Prepend(vals[..i], EvalArgs(ctx, node, i))
    {
      var v;
      match node.args[i] {
        case Lit(l) =>
          v := FromLiteral(l);
        case Sub(s) =>
          var sub := TraverseAst(ctx, s);
          if sub.Err? {
            assert EvalArgs(ctx, node, i) == Err(sub.error);
            return Err(sub.error);
          }
          v := sub.value;
      }
      EvalArgsStep(ctx, node, i, v);
      ghost var done := vals[..i];
      vals[i] := v;
      assert vals[..i + 1] == done + [v];
      PrependTwice(done, [v], EvalArgs(ctx, node, i + 1));
      i := i + 1;
    }
    assert EvalArgs(ctx, node, i) == Ok([]);
    assert vals[..] == vals[..i] + [];
    r := Ok(vals[..]);
  }

  /** The node's own rule; `within` / `exwithin` take the in-place mask route. */
  method Apply(ctx: Context, op: string, children: seq<Value>) returns (r: Result<Value>)
    requires ctx.Valid()
    ensures r == Dispatch(ctx, op, children)
  {
    if (op == "within" || op == "exwithin") && |children| >= 2 {
      r := Spatial.WithinSelect(ctx.mol.Coords(), ctx.kernels.near, op == "exwithin", children[0], children[1]);
    } else {
      r := Dispatch(ctx, op, children);
    }
  }

  /** The parser's outcome for a selection string; the parser is not part of this model. */
  datatype Parsed = Parsed(ast: Node) | ParseError(message: string)

  /** `atomselect` (lines 204-221): a parse failure or an evaluation failure becomes one
      error naming the selection, and no mask is returned with it. */
  function AtomSelect(ctx: Context, selection: string, parsed: Parsed): (r: Result<Value>)
    requires ctx.Valid()
    ensures parsed.ParseError? ==> r == Err(ParseFailure(selection, parsed.message))
    ensures parsed.Parsed? ==> (r.Ok? <==> Eval(ctx, parsed.ast).Ok?)
    ensures parsed.Parsed? && r.Ok? ==> r.value == Eval(ctx, parsed.ast).value
    ensures parsed.Parsed? && r.Err? ==> r.error == SelectionFailed(selection, Eval(ctx, parsed.ast).error)
    ensures r.Err? ==> r.error.ParseFailure? || r.error.SelectionFailed?
    ensures r.Ok? ==> r.value.Shaped(ctx.N())
  {
    match parsed
    case ParseError(msg) => Err(ParseFailure(selection, msg))
    case Parsed(ast) =>
      var e := Eval(ctx, ast);
      if e.Ok? then e else Err(SelectionFailed(selection, e.error))
  }
}
