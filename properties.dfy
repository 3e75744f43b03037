/** Properties of whole selection trees: what the evaluator computes for the node kinds
    of the selection language, and how failures propagate. */
module Properties {
  import opened Errors
  import opened Values
  import opened Molecules
  import opened Numeric
  import opened Operators
  import opened Evaluator
  import Matching
  import Groups
  import Spatial

  function KeywordNode(k: string): Node { Node("molecule", [Lit(LStr(k))]) }
  function AndNode(a: Node, b: Node): Node { Node("logop", [Lit(LStr("and")), Sub(a), Sub(b)]) }
  function OrNode(a: Node, b: Node): Node { Node("logop", [Lit(LStr("or")), Sub(a), Sub(b)]) }
  function NotNode(a: Node): Node { Node("logop", [Lit(LStr("not")), Sub(a)]) }
  function MatchNode(p: string, y: Literal): Node { Node("molprop_str_eq", [Lit(LStr(p)), Lit(y)]) }
  function SameNode(p: string, s: Node): Node { Node("sameas", [Lit(LStr(p)), Sub(s)]) }
  function WithinNode(c: Literal, s: Node): Node { Node("within", [Lit(c), Sub(s)]) }
  function ExwithinNode(c: Literal, s: Node): Node { Node("exwithin", [Lit(c), Sub(s)]) }
  function SqrtNode(s: Node): Node { Node("func", [Lit(LStr("sqrt")), Sub(s)]) }
  function AbsNode(s: Node): Node { Node("func", [Lit(LStr("abs")), Sub(s)]) }
  function CompNode(op: string, a: Node, b: Node): Node { Node("comp", [Lit(LStr(op)), Sub(a), Sub(b)]) }
  function MathNode(op: string, a: Node, b: Node): Node { Node("mathop", [Lit(LStr(op)), Sub(a), Sub(b)]) }
  function MinusNode(a: Node): Node { Node("uminus", [Sub(a)]) }
  function ModuloNode(p: string, d: real, rem: real): Node {
    Node("molprop_int_modulo", [Lit(LStr(p)), Lit(LNum(d)), Lit(LNum(rem))])
  }

  /** The tree evaluates to one number per atom. */
  predicate IsNumbers(ctx: Context, r: Result<Value>) {
    r.Ok? && r.value.NumArr? && |r.value.nums| == ctx.N()
  }

  /** The tree evaluates to a per-atom mask. */
  predicate IsMask(ctx: Context, r: Result<Value>) {
    r.Ok? && r.value.BoolArr? && |r.value.bools| == ctx.N()
  }

  /** A node with one literal child is its rule applied to that literal. */
  lemma EvalLit(ctx: Context, op: string, l: Literal)
    requires ctx.Valid()
    ensures Eval(ctx, Node(op, [Lit(l)])) == Dispatch(ctx, op, [FromLiteral(l)])
  {
    var node := Node(op, [Lit(l)]);
    EvalArgsStep(ctx, node, 0, FromLiteral(l));
    assert [FromLiteral(l)] + [] == [FromLiteral(l)];
  }

  /** A node with two literal children. */
  lemma EvalLitLit(ctx: Context, op: string, l: Literal, m: Literal)
    requires ctx.Valid()
    ensures Eval(ctx, Node(op, [Lit(l), Lit(m)])) == Dispatch(ctx, op, [FromLiteral(l), FromLiteral(m)])
  {
    var node := Node(op, [Lit(l), Lit(m)]);
    EvalArgsStep(ctx, node, 1, FromLiteral(m));
    assert [FromLiteral(m)] + [] == [FromLiteral(m)];
    EvalArgsStep(ctx, node, 0, FromLiteral(l));
  }

  /** A node with a literal and a nested node whose evaluation succeeds. */
  lemma EvalLitSub(ctx: Context, op: string, l: Literal, s: Node)
    requires ctx.Valid() && Eval(ctx, s).Ok?
    ensures Eval(ctx, Node(op, [Lit(l), Sub(s)])) == Dispatch(ctx, op, [FromLiteral(l), Eval(ctx, s).value])
  {
    var node := Node(op, [Lit(l), Sub(s)]);
    var v := Eval(ctx, s).value;
    EvalArgsStep(ctx, node, 1, v);
    assert [v] + [] == [v];
    EvalArgsStep(ctx, node, 0, FromLiteral(l));
  }

  /** A node with a literal and two nested nodes whose evaluations succeed. */
  lemma EvalLitSubSub(ctx: Context, op: string, l: Literal, s: Node, t: Node)
    requires ctx.Valid() && Eval(ctx, s).Ok? && Eval(ctx, t).Ok?
    ensures Eval(ctx, Node(op, [Lit(l), Sub(s), Sub(t)])) ==
            Dispatch(ctx, op, [FromLiteral(l), Eval(ctx, s).value, Eval(ctx, t).value])
  {
    var node := Node(op, [Lit(l), Sub(s), Sub(t)]);
    var v, w := Eval(ctx, s).value, Eval(ctx, t).value;
    EvalArgsStep(ctx, node, 2, w);
    assert [w] + [] == [w];
    EvalArgsStep(ctx, node, 1, v);
    EvalArgsStep(ctx, node, 0, FromLiteral(l));
    assert [FromLiteral(l)] + ([v] + [w]) == [FromLiteral(l), v, w];
  }

  /** A node whose only child is a nested node that evaluates. */
  lemma EvalSub(ctx: Context, op: string, s: Node)
    requires ctx.Valid() && Eval(ctx, s).Ok?
    ensures Eval(ctx, Node(op, [Sub(s)])) == Dispatch(ctx, op, [Eval(ctx, s).value])
  {
    var node := Node(op, [Sub(s)]);
    var v := Eval(ctx, s).value;
    EvalArgsStep(ctx, node, 0, v);
    assert [v] + [] == [v];
  }

  /** A node with three literal children. */
  lemma EvalLitLitLit(ctx: Context, op: string, l: Literal, m: Literal, o: Literal)
    requires ctx.Valid()
    ensures Eval(ctx, Node(op, [Lit(l), Lit(m), Lit(o)])) ==
            Dispatch(ctx, op, [FromLiteral(l), FromLiteral(m), FromLiteral(o)])
  {
    var node := Node(op, [Lit(l), Lit(m), Lit(o)]);
    var u, v, w := FromLiteral(l), FromLiteral(m), FromLiteral(o);
    EvalArgsStep(ctx, node, 2, w);
    assert [w] + [] == [w];
    EvalArgsStep(ctx, node, 1, v);
    EvalArgsStep(ctx, node, 0, u);
    assert [u] + ([v] + [w]) == [u, v, w];
  }

  /** `A and B` is the elementwise conjunction of two masks. */
  lemma AndIsElementwise(ctx: Context, a: Node, b: Node)
    requires ctx.Valid() && IsMask(ctx, Eval(ctx, a)) && IsMask(ctx, Eval(ctx, b))
    ensures IsMask(ctx, Eval(ctx, AndNode(a, b)))
    ensures forall i :: 0 <= i < ctx.N() ==>
      Eval(ctx, AndNode(a, b)).value.bools[i] == (Eval(ctx, a).value.bools[i] && Eval(ctx, b).value.bools[i])
  {
    EvalLitSubSub(ctx, "logop", LStr("and"), a, b);
  }

  /** `A or B` is the elementwise disjunction of two masks. */
  lemma OrIsElementwise(ctx: Context, a: Node, b: Node)
    requires ctx.Valid() && IsMask(ctx, Eval(ctx, a)) && IsMask(ctx, Eval(ctx, b))
    ensures IsMask(ctx, Eval(ctx, OrNode(a, b)))
    ensures forall i :: 0 <= i < ctx.N() ==>
      Eval(ctx, OrNode(a, b)).value.bools[i] == (Eval(ctx, a).value.bools[i] || Eval(ctx, b).value.bools[i])
  {
    EvalLitSubSub(ctx, "logop", LStr("or"), a, b);
  }

  /** Conjunction and disjunction of masks do not depend on the order of the operands. */
  lemma AndOrCommute(ctx: Context, a: Node, b: Node)
    requires ctx.Valid() && IsMask(ctx, Eval(ctx, a)) && IsMask(ctx, Eval(ctx, b))
    ensures Eval(ctx, AndNode(a, b)) == Eval(ctx, AndNode(b, a))
    ensures Eval(ctx, OrNode(a, b)) == Eval(ctx, OrNode(b, a))
  {
    AndIsElementwise(ctx, a, b);
    AndIsElementwise(ctx, b, a);
    OrIsElementwise(ctx, a, b);
    OrIsElementwise(ctx, b, a);
    assert Eval(ctx, AndNode(a, b)).value.bools == Eval(ctx, AndNode(b, a)).value.bools;
    assert Eval(ctx, OrNode(a, b)).value.bools == Eval(ctx, OrNode(b, a)).value.bools;
  }

  /** Conjunction and disjunction of masks can be regrouped freely. */
  lemma AndOrAssociate(ctx: Context, a: Node, b: Node, c: Node)
    requires ctx.Valid() && IsMask(ctx, Eval(ctx, a)) && IsMask(ctx, Eval(ctx, b)) && IsMask(ctx, Eval(ctx, c))
    ensures Eval(ctx, AndNode(AndNode(a, b), c)) == Eval(ctx, AndNode(a, AndNode(b, c)))
    ensures Eval(ctx, OrNode(OrNode(a, b), c)) == Eval(ctx, OrNode(a, OrNode(b, c)))
  {
    AndIsElementwise(ctx, a, b);
    AndIsElementwise(ctx, b, c);
    AndIsElementwise(ctx, AndNode(a, b), c);
    AndIsElementwise(ctx, a, AndNode(b, c));
    assert Eval(ctx, AndNode(AndNode(a, b), c)).value.bools == Eval(ctx, AndNode(a, AndNode(b, c))).value.bools;
    OrIsElementwise(ctx, a, b);
    OrIsElementwise(ctx, b, c);
    OrIsElementwise(ctx, OrNode(a, b), c);
    OrIsElementwise(ctx, a, OrNode(b, c));
    assert Eval(ctx, OrNode(OrNode(a, b), c)).value.bools == Eval(ctx, OrNode(a, OrNode(b, c))).value.bools;
  }

  /** `not A` is the complement of a mask, and negating twice gives the mask back. */
  lemma NotIsComplement(ctx: Context, a: Node)
    requires ctx.Valid() && IsMask(ctx, Eval(ctx, a))
    ensures IsMask(ctx, Eval(ctx, NotNode(a)))
    ensures forall i :: 0 <= i < ctx.N() ==> Eval(ctx, NotNode(a)).value.bools[i] == !Eval(ctx, a).value.bools[i]
    ensures Eval(ctx, NotNode(NotNode(a))) == Eval(ctx, a)
  {
    EvalLitSub(ctx, "logop", LStr("not"), a);
    EvalLitSub(ctx, "logop", LStr("not"), NotNode(a));
    assert Eval(ctx, NotNode(NotNode(a))).value.bools == Eval(ctx, a).value.bools;
  }

  /** `hydrogen` is exactly the complement of `noh`: both test the element for "H". */
  lemma HydrogenIsNotNoh(ctx: Context)
    requires ctx.Valid()
    ensures IsMask(ctx, Eval(ctx, KeywordNode("hydrogen"))) && IsMask(ctx, Eval(ctx, KeywordNode("noh")))
    ensures forall i :: 0 <= i < ctx.N() ==>
      Eval(ctx, KeywordNode("hydrogen")).value.bools[i] == !Eval(ctx, KeywordNode("noh")).value.bools[i]
    ensures forall i :: 0 <= i < ctx.N() ==>
      (Eval(ctx, KeywordNode("hydrogen")).value.bools[i] <==> Element(ctx)[i] == "H")
  {
    EvalLit(ctx, "molecule", LStr("hydrogen"));
    EvalLit(ctx, "molecule", LStr("noh"));
  }

  /** `backbone` is the union of the protein and nucleic-acid backbones. */
  lemma BackboneIsUnion(ctx: Context)
    requires ctx.Valid()
    ensures IsMask(ctx, Eval(ctx, KeywordNode("backbone")))
    ensures forall i :: 0 <= i < ctx.N() ==>
      (Eval(ctx, KeywordNode("backbone")).value.bools[i] <==> ctx.analysis.proteinBb[i] || ctx.analysis.nucleicBb[i])
  {
    EvalLit(ctx, "molecule", LStr("backbone"));
  }

  /** A word outside the keyword vocabulary fails the whole selection. */
  lemma UnknownKeywordFails(ctx: Context, k: string)
    requires ctx.Valid() && k !in Keywords
    ensures Eval(ctx, KeywordNode(k)) == Err(UnknownKeyword)
  {
    EvalLit(ctx, "molecule", LStr(k));
  }

  /** A logical operator other than `and`, `or` and `not` is rejected once the
      operands have been evaluated. */
  lemma UnknownLogicalOpFails(ctx: Context, o: string, rest: seq<Child>)
    requires ctx.Valid() && o !in {"and", "or", "not"}
    requires EvalArgs(ctx, Node("logop", [Lit(LStr(o))] + rest), 1).Ok?
    ensures Eval(ctx, Node("logop", [Lit(LStr(o))] + rest)) == Err(UnknownLogicalOp)
  {
    EvalArgsStep(ctx, Node("logop", [Lit(LStr(o))] + rest), 0, Str(o));
  }

  /** A function other than `abs`, `sqr` and `sqrt` is rejected once its argument
      has been evaluated. */
  lemma UnknownFunctionFails(ctx: Context, f: string, rest: seq<Child>)
    requires ctx.Valid() && f !in {"abs", "sqr", "sqrt"}
    requires EvalArgs(ctx, Node("func", [Lit(LStr(f))] + rest), 1).Ok?
    ensures Eval(ctx, Node("func", [Lit(LStr(f))] + rest)) == Err(UnknownFunction)
  {
    EvalArgsStep(ctx, Node("func", [Lit(LStr(f))] + rest), 0, Str(f));
  }

  /** `resname ACE NME` selects exactly the atoms whose residue name is one of the two. */
  lemma ResnameListSelects(ctx: Context)
    requires ctx.Valid()
    ensures IsMask(ctx, Eval(ctx, MatchNode("resname", LList([S("ACE"), S("NME")]))))
    ensures forall i :: 0 <= i < ctx.N() ==>
      (Eval(ctx, MatchNode("resname", LList([S("ACE"), S("NME")]))).value.bools[i] <==>
        Text(ctx, "resname")[i] == "ACE" || Text(ctx, "resname")[i] == "NME")
  {
    var y := LList([S("ACE"), S("NME")]);
    EvalLitLit(ctx, "molprop_str_eq", LStr("resname"), y);
    var x := PropertyArray(ctx, Str("resname")).value;
    assert x == StrArr(Text(ctx, "resname"));
    forall i | 0 <= i < ctx.N()
      ensures Matching.MatchValue(x, List([S("ACE"), S("NME")])).value[i] <==>
        (x.strs[i] == "ACE" || x.strs[i] == "NME")
    {
      Matching.ResnameListMatch(x, i);
    }
  }

  /** `name "C.*"` selects exactly the atoms whose name starts with "C". */
  lemma NamePatternSelects(ctx: Context)
    requires ctx.Valid()
    ensures IsMask(ctx, Eval(ctx, MatchNode("name", LStr("C.*"))))
    ensures forall i :: 0 <= i < ctx.N() ==>
      (Eval(ctx, MatchNode("name", LStr("C.*"))).value.bools[i] <==>
        |Text(ctx, "name")[i]| > 0 && Text(ctx, "name")[i][0] == 'C')
  {
    EvalLitLit(ctx, "molprop_str_eq", LStr("name"), LStr("C.*"));
    var x := PropertyArray(ctx, Str("name")).value;
    assert x == StrArr(Text(ctx, "name"));
    assert Matching.HasWildcard("C.*") by { assert "C.*"[1] == '.' && "C.*"[2] == '*'; }
    forall i | 0 <= i < ctx.N()
      ensures Matching.PatternMatch("C.*", x.strs[i]) <==> |x.strs[i]| > 0 && x.strs[i][0] == 'C'
    {
      Matching.NameStartsWithC(x.strs[i]);
    }
  }

  /** A single number, or a string without the wildcard, is compared for equality with
      every atom's value of a mapped attribute. */
  lemma SingleValueIsEquality(ctx: Context, p: string, y: Literal)
    requires ctx.Valid() && p in MolPropMap
    requires y.LNum? || (y.LStr? && !Matching.HasWildcard(y.s))
    ensures IsMask(ctx, Eval(ctx, MatchNode(p, y)))
    ensures forall i :: 0 <= i < ctx.N() ==>
      (Eval(ctx, MatchNode(p, y)).value.bools[i] <==>
        FromColumn(ctx.mol.attrs[MolPropMap[p]]).Cells()[i] == AsScalar(FromLiteral(y)))
  {
    EvalLitLit(ctx, "molprop_str_eq", LStr(p), y);
  }

  /** `same X as S` contains S, and applying it to its own result changes nothing. */
  lemma SameAsTree(ctx: Context, p: string, s: Node)
    requires ctx.Valid() && IsMask(ctx, Eval(ctx, s)) && GroupKeys(ctx, Str(p)).Ok?
    ensures IsMask(ctx, Eval(ctx, SameNode(p, s)))
    ensures forall i :: 0 <= i < ctx.N() && Eval(ctx, s).value.bools[i] ==> Eval(ctx, SameNode(p, s)).value.bools[i]
    ensures Eval(ctx, SameNode(p, SameNode(p, s))) == Eval(ctx, SameNode(p, s))
  {
    var keys := GroupKeys(ctx, Str(p)).value;
    var sel := Eval(ctx, s).value.bools;
    EvalLitSub(ctx, "sameas", LStr(p), s);
    assert Eval(ctx, SameNode(p, s)) == Ok(BoolArr(Groups.SameAs(keys, sel)));
    forall i | 0 <= i < ctx.N() && sel[i]
      ensures Groups.SameAs(keys, sel)[i]
    {
      Groups.SameAsContains(keys, sel, i);
    }
    EvalLitSub(ctx, "sameas", LStr(p), SameNode(p, s));
    Groups.SameAsIdempotent(keys, sel);
  }

  /** `same residue as S` selects the atoms of every residue S touches. */
  lemma SameResidueSelectsResidues(ctx: Context, s: Node)
    requires ctx.Valid() && IsMask(ctx, Eval(ctx, s))
    ensures IsMask(ctx, Eval(ctx, SameNode("residue", s)))
    ensures forall i :: 0 <= i < ctx.N() ==>
      (Eval(ctx, SameNode("residue", s)).value.bools[i] <==>
        exists j :: 0 <= j < ctx.N() && Eval(ctx, s).value.bools[j] && ctx.analysis.residues[j] == ctx.analysis.residues[i])
  {
    EvalLitSub(ctx, "sameas", LStr("residue"), s);
  }

  /** A `same` property outside fragment, residue and the attribute map fails. */
  lemma SameAsUnknownFails(ctx: Context, p: string, s: Node)
    requires ctx.Valid() && Eval(ctx, s).Ok?
    requires p != "fragment" && p != "residue" && p !in MolPropMap
    ensures Eval(ctx, SameNode(p, s)) == Err(InvalidGroupProperty)
  {
    EvalLitSub(ctx, "sameas", LStr(p), s);
  }

  /** `exwithin C of S` is `within C of S` with the atoms of S removed: contained in it,
      disjoint from S, and, for a non-negative cutoff and a self-inclusive distance
      test, different from it exactly on S. */
  lemma ExwithinTree(ctx: Context, c: real, s: Node)
    requires ctx.Valid() && IsMask(ctx, Eval(ctx, s))
    ensures IsMask(ctx, Eval(ctx, WithinNode(LNum(c), s))) && IsMask(ctx, Eval(ctx, ExwithinNode(LNum(c), s)))
    ensures forall i :: 0 <= i < ctx.N() ==>
      Eval(ctx, ExwithinNode(LNum(c), s)).value.bools[i] ==
        (Eval(ctx, WithinNode(LNum(c), s)).value.bools[i] && !Eval(ctx, s).value.bools[i])
    ensures Spatial.SelfInclusive(ctx.kernels.near) && 0.0 <= c ==> forall i :: 0 <= i < ctx.N() ==>
      ((Eval(ctx, WithinNode(LNum(c), s)).value.bools[i] && !Eval(ctx, ExwithinNode(LNum(c), s)).value.bools[i])
       <==> Eval(ctx, s).value.bools[i])
  {
    var src := Eval(ctx, s).value.bools;
    var n := ctx.N();
    EvalLitSub(ctx, "within", LNum(c), s);
    EvalLitSub(ctx, "exwithin", LNum(c), s);
    forall i | 0 <= i < n
      ensures Spatial.WithinMask(n, ctx.kernels.near, c, src, true)[i] ==
        (Spatial.WithinMask(n, ctx.kernels.near, c, src, false)[i] && !src[i])
      ensures Spatial.SelfInclusive(ctx.kernels.near) && 0.0 <= c ==>
        (Spatial.WithinMask(n, ctx.kernels.near, c, src, false)[i] && !Spatial.WithinMask(n, ctx.kernels.near, c, src, true)[i] <==> src[i])
    {
      Spatial.ExwithinIsWithinLessSource(n, ctx.kernels.near, c, src, i);
    }
  }

  /** An empty source selects nothing, whatever the cutoff, and the distance routine is
      never consulted. */
  lemma WithinEmptySource(ctx: Context, c: Literal, s: Node, exclusive: bool)
    requires ctx.Valid() && IsMask(ctx, Eval(ctx, s))
    requires forall j :: 0 <= j < ctx.N() ==> !Eval(ctx, s).value.bools[j]
    ensures var w := if exclusive then ExwithinNode(c, s) else WithinNode(c, s);
      IsMask(ctx, Eval(ctx, w)) && forall i :: 0 <= i < ctx.N() ==> !Eval(ctx, w).value.bools[i]
  {
    EvalLitSub(ctx, if exclusive then "exwithin" else "within", c, s);
  }

  /** `sqrt` of an expression with a negative element fails before any root is taken. */
  lemma SqrtRejectsNegative(ctx: Context, s: Node, i: nat)
    requires ctx.Valid() && Eval(ctx, s).Ok? && Eval(ctx, s).value.NumArr?
    requires i < |Eval(ctx, s).value.nums| && Eval(ctx, s).value.nums[i] < 0.0
    ensures Eval(ctx, SqrtNode(s)) == Err(NegativeSqrtArgument)
  {
    EvalLitSub(ctx, "func", LStr("sqrt"), s);
  }

  /** A failing nested child from position k on makes the remaining children fail. */
  lemma {:induction false} EvalArgsFails(ctx: Context, node: Node, k: nat, t: nat)
    requires ctx.Valid() && k <= t < |node.args|
    requires node.args[t].Sub? && Eval(ctx, node.args[t].node).Err?
    ensures EvalArgs(ctx, node, k).Err?
    decreases t - k
  {
    if k < t {
      EvalArgsFails(ctx, node, k + 1, t);
    }
  }

  /** One failing subtree fails the whole tree, and `atomselect` then reports one
      selection failure and no mask. */
  lemma ChildErrorAborts(ctx: Context, selection: string, node: Node, t: nat)
    requires ctx.Valid() && t < |node.args|
    requires node.args[t].Sub? && Eval(ctx, node.args[t].node).Err?
    ensures Eval(ctx, node).Err?
    ensures AtomSelect(ctx, selection, Parsed(node)).Err?
    ensures AtomSelect(ctx, selection, Parsed(node)).error.SelectionFailed?
  {
    EvalArgsFails(ctx, node, 0, t);
  }

  /** An operation tag the dispatcher does not know fails once the children evaluate. */
  lemma UnknownOperationFails(ctx: Context, op: string, l: Literal)
    requires ctx.Valid() && op !in Operations
    ensures Eval(ctx, Node(op, [Lit(l)])) == Err(UnknownOperation)
  {
    EvalLit(ctx, op, l);
  }

  /** `a < b` is `not (a >= b)` on per-atom numbers. */
  lemma LessIsNotAtLeast(ctx: Context, a: Node, b: Node)
    requires ctx.Valid() && IsNumbers(ctx, Eval(ctx, a)) && IsNumbers(ctx, Eval(ctx, b))
    ensures IsMask(ctx, Eval(ctx, CompNode("<", a, b)))
    ensures Eval(ctx, CompNode("<", a, b)) == Eval(ctx, NotNode(CompNode(">=", a, b)))
  {
    EvalLitSubSub(ctx, "comp", LStr("<"), a, b);
    EvalLitSubSub(ctx, "comp", LStr(">="), a, b);
    EvalLitSub(ctx, "logop", LStr("not"), CompNode(">=", a, b));
    assert Eval(ctx, CompNode("<", a, b)).value.bools == Eval(ctx, NotNode(CompNode(">=", a, b))).value.bools;
  }

  /** `a - b` is `a + -b` on per-atom numbers. */
  lemma SubtractIsAddNegatedTree(ctx: Context, a: Node, b: Node)
    requires ctx.Valid() && IsNumbers(ctx, Eval(ctx, a)) && IsNumbers(ctx, Eval(ctx, b))
    ensures IsNumbers(ctx, Eval(ctx, MathNode("-", a, b)))
    ensures Eval(ctx, MathNode("-", a, b)) == Eval(ctx, MathNode("+", a, MinusNode(b)))
  {
    var x, y := Eval(ctx, a).value, Eval(ctx, b).value;
    EvalSub(ctx, "uminus", b);
    assert Eval(ctx, MinusNode(b)) == MapNum(y, Neg);
    EvalLitSubSub(ctx, "mathop", LStr("-"), a, b);
    EvalLitSubSub(ctx, "mathop", LStr("+"), a, MinusNode(b));
    Numeric.SubtractIsAddNegated(x, y);
  }

  /** `abs(e)` is never negative and agrees with `e` wherever `e` is non-negative. */
  lemma AbsIsNonNegative(ctx: Context, a: Node)
    requires ctx.Valid() && IsNumbers(ctx, Eval(ctx, a))
    ensures IsNumbers(ctx, Eval(ctx, AbsNode(a)))
    ensures forall i :: 0 <= i < ctx.N() ==> Eval(ctx, AbsNode(a)).value.nums[i] >= 0.0
    ensures forall i :: 0 <= i < ctx.N() && Eval(ctx, a).value.nums[i] >= 0.0 ==>
      Eval(ctx, AbsNode(a)).value.nums[i] == Eval(ctx, a).value.nums[i]
  {
    EvalLitSub(ctx, "func", LStr("abs"), a);
  }

  /** The modulo test reads the attribute map directly: `index % d == r` is an unknown
      property, although `index` is accepted by equality matching. */
  lemma ModuloRejectsIndex(ctx: Context, d: real, rem: real)
    requires ctx.Valid()
    ensures Eval(ctx, ModuloNode("index", d, rem)) == Err(UnknownProperty)
    ensures Eval(ctx, MatchNode("index", LNum(rem))).Ok?
  {
    EvalLitLitLit(ctx, "molprop_int_modulo", LStr("index"), LNum(d), LNum(rem));
    EvalLitLit(ctx, "molprop_str_eq", LStr("index"), LNum(rem));
  }

  /** `serial % d == r` with a positive whole divisor and whole serial numbers is Dafny's
      own remainder test. */
  lemma ModuloOnWholeSerials(ctx: Context, d: nat, rem: real)
    requires ctx.Valid() && d > 0
    requires forall i :: 0 <= i < ctx.N() ==> Numbers(ctx, "serial")[i] == Numbers(ctx, "serial")[i].Floor as real
    ensures IsMask(ctx, Eval(ctx, ModuloNode("serial", d as real, rem)))
    ensures forall i :: 0 <= i < ctx.N() ==>
      (Eval(ctx, ModuloNode("serial", d as real, rem)).value.bools[i] <==>
        (Numbers(ctx, "serial")[i].Floor % d) as real == rem)
  {
    var xs := Numbers(ctx, "serial");
    EvalLitLitLit(ctx, "molprop_int_modulo", LStr("serial"), LNum(d as real), LNum(rem));
    forall i | 0 <= i < ctx.N()
      ensures FloorMod(xs[i], d as real) == (xs[i].Floor % d) as real
    {
      FloorModOfIntegers(xs[i].Floor, d);
    }
  }
}
