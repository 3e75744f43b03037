/** The per-node-kind rules of the evaluator (lines 35-199), each applied to the already
    evaluated children of one node, and the context they read: the molecule, its
    structural analysis and the two numeric routines the evaluator calls out to. */
module Operators {
  import opened Errors
  import opened Values
  import opened Molecules
  import opened Numeric
  import Matching
  import Groups
  import Spatial

  /** The routines outside the evaluator: the square root behind `np.sqrt` and the
      distance test of the compiled `within_distance` routine. */
  datatype Kernels = Kernels(sqrt: real -> real, near: (real, nat, nat) -> bool)

  /** What every node is evaluated against. */
  datatype Context = Context(mol: Molecule, analysis: Analysis, kernels: Kernels)
  {
    function N(): nat { mol.numAtoms }

    /** A well-formed molecule, an analysis with one entry per atom, and a distance test
        that only accepts atoms within the cutoff on every axis. */
    ghost predicate Valid() {
      && mol.Valid()
      && analysis.Valid(mol.numAtoms)
      && Spatial.NearImpliesClose(mol.Coords(), kernels.near)
    }
  }

  /** The evaluated child `node[k]` (k >= 1); a node too short for the operation is
      malformed. */
  function Arg(vals: seq<Value>, k: nat): (r: Result<Value>)
    requires k >= 1
    ensures r.Ok? <==> k <= |vals|
    ensures r.Ok? ==> r.value == vals[k - 1]
    ensures r.Err? ==> r.error == MalformedAst
  {
    if k <= |vals| then Ok(vals[k - 1]) else Err(MalformedAst)
  }

  /** The evaluated children all have one entry per atom where they are arrays. */
  predicate AllShaped(vals: seq<Value>, n: nat) {
    forall k | 0 <= k < |vals| :: vals[k].Shaped(n)
  }

  /** A textual attribute, by its selection-language name. */
  function Text(ctx: Context, p: string): (t: seq<string>)
    requires ctx.Valid() && p in MolPropMap && MolPropMap[p] in TextAttrs
    ensures |t| == ctx.N()
    ensures FromColumn(ctx.mol.attrs[MolPropMap[p]]) == StrArr(t)
  {
    ctx.mol.attrs[MolPropMap[p]].strs
  }

  /** A numeric attribute, by its selection-language name. */
  function Numbers(ctx: Context, p: string): (t: seq<real>)
    requires ctx.Valid() && p in MolPropMap && MolPropMap[p] !in TextAttrs
    ensures |t| == ctx.N()
    ensures FromColumn(ctx.mol.attrs[MolPropMap[p]]) == NumArr(t)
  {
    ctx.mol.attrs[MolPropMap[p]].nums
  }

  /** The molecule's element names. */
  function Element(ctx: Context): (e: seq<string>)
    requires ctx.Valid()
    ensures |e| == ctx.N()
  {
    assert MolPropMap["element"] == "element";
    Text(ctx, "element")
  }

  /** The vocabulary of the `molecule` node. */
  const Keywords: set<string> := {
    "lipid", "lipids", "ion", "ions", "water", "waters", "hydrogen", "noh",
    "backbone", "sidechain", "protein", "nucleic"
  }

  /** `molecule` (lines 35-55): a class of atoms taken from the analysis, or an element
      test for `hydrogen` / `noh`. */
  function Keyword(ctx: Context, k: Value): (r: Result<Value>)
    requires ctx.Valid()
    ensures r.Ok? <==> k.Str? && k.s in Keywords
    ensures r.Err? ==> r.error == UnknownKeyword
    ensures r.Ok? ==> r.value.BoolArr? && |r.value.bools| == ctx.N()
    ensures k == Str("lipid") || k == Str("lipids") ==> r == Ok(BoolArr(ctx.analysis.lipids))
    ensures k == Str("ion") || k == Str("ions") ==> r == Ok(BoolArr(ctx.analysis.ions))
    ensures k == Str("water") || k == Str("waters") ==> r == Ok(BoolArr(ctx.analysis.waters))
    ensures k == Str("sidechain") ==> r == Ok(BoolArr(ctx.analysis.sidechain))
    ensures k == Str("protein") ==> r == Ok(BoolArr(ctx.analysis.protein))
    ensures k == Str("nucleic") ==> r == Ok(BoolArr(ctx.analysis.nucleic))
    ensures k == Str("hydrogen") ==> forall i :: 0 <= i < ctx.N() ==> (r.value.bools[i] <==> Element(ctx)[i] == "H")
    ensures k == Str("noh") ==> forall i :: 0 <= i < ctx.N() ==> (r.value.bools[i] <==> Element(ctx)[i] != "H")
    ensures k == Str("backbone") ==> forall i :: 0 <= i < ctx.N() ==>
      (r.value.bools[i] <==> ctx.analysis.proteinBb[i] || ctx.analysis.nucleicBb[i])
  {
    var a := ctx.analysis;
    var n := ctx.N();
    if !k.Str? then Err(UnknownKeyword)
    else if k.s == "lipid" || k.s == "lipids" then Ok(BoolArr(a.lipids))
    else if k.s == "ion" || k.s == "ions" then Ok(BoolArr(a.ions))
    else if k.s == "water" || k.s == "waters" then Ok(BoolArr(a.waters))
    else if k.s == "hydrogen" then Ok(BoolArr(seq(n, i requires 0 <= i < n => Element(ctx)[i] == "H")))
    else if k.s == "noh" then Ok(BoolArr(seq(n, i requires 0 <= i < n => Element(ctx)[i] != "H")))
    else if k.s == "backbone" then Ok(BoolArr(seq(n, i requires 0 <= i < n => a.proteinBb[i] || a.nucleicBb[i])))
    else if k.s == "sidechain" then Ok(BoolArr(a.sidechain))
    else if k.s == "protein" then Ok(BoolArr(a.protein))
    else if k.s == "nucleic" then Ok(BoolArr(a.nucleic))
    else Err(UnknownKeyword)
  }

  /** The property names the value matcher accepts: the attribute map and the two
      synthetic properties. */
  predicate IsMatchProperty(p: string) {
    p in MolPropMap || p == "index" || p == "residue"
  }

  /** The per-atom array a matching node compares (lines 81-88): a mapped attribute, the
      atom index, or the analysis' sequential residue number. */
  function PropertyArray(ctx: Context, p: Value): (r: Result<Value>)
    requires ctx.Valid()
    ensures r.Ok? <==> p.Str? && IsMatchProperty(p.s)
    ensures r.Err? ==> r.error == UnknownProperty
    ensures r.Ok? ==> r.value.IsProperty() && r.value.Length() == ctx.N()
    ensures r.Ok? && p.s in MolPropMap ==> r.value == FromColumn(ctx.mol.attrs[MolPropMap[p.s]])
    ensures p == Str("index") ==> r.value.NumArr? && forall i :: 0 <= i < ctx.N() ==> r.value.nums[i] == i as real
    ensures p == Str("residue") ==> r.value.NumArr? &&
                                    forall i :: 0 <= i < ctx.N() ==> r.value.nums[i] == ctx.analysis.residues[i] as real
  {
    var n := ctx.N();
    if !p.Str? then Err(UnknownProperty)
    else if p.s in MolPropMap then Ok(FromColumn(ctx.mol.attrs[MolPropMap[p.s]]))
    else if p.s == "index" then Ok(NumArr(seq(n, i => i as real)))
    else if p.s == "residue" then
      Ok(NumArr(seq(n, i requires 0 <= i < n => ctx.analysis.residues[i] as real)))
    else Err(UnknownProperty)
  }

  /** `molprop_int_eq` / `molprop_str_eq` (lines 57-88): the matcher applied to the
      property array. An unknown property is reported before the comparand is looked at. */
  function PropertyMatch(ctx: Context, p: Value, y: Value): (r: Result<Value>)
    requires ctx.Valid()
    ensures !(p.Str? && IsMatchProperty(p.s)) ==> r == Err(UnknownProperty)
    ensures p.Str? && IsMatchProperty(p.s) ==>
      (r.Ok? <==> Matching.MatchValue(PropertyArray(ctx, p).value, y).Ok?)
    ensures r.Ok? ==> (r.value.BoolArr? && |r.value.bools| == ctx.N()
      && r.value.bools == Matching.MatchValue(PropertyArray(ctx, p).value, y).value)
  {
    var x :- PropertyArray(ctx, p);
    var m :- Matching.MatchValue(x, y);
    Ok(BoolArr(m))
  }

  /** `molprop_int_modulo` (lines 90-94): `(prop % d) == rem` on a mapped attribute. The
      attribute map is consulted directly, so `index` and `residue` are unknown here. */
  function ModuloTest(ctx: Context, p: Value, d: Value, rem: Value): (r: Result<Value>)
    requires ctx.Valid()
    ensures !(p.Str? && p.s in MolPropMap) ==> r == Err(UnknownProperty)
    ensures r.Ok? ==> r.value.BoolArr? && |r.value.bools| == ctx.N()
    ensures p.Str? && p.s in MolPropMap ==>
      var col := ctx.mol.attrs[MolPropMap[p.s]];
      && (r.Ok? <==> col.Nums? && d.Num? && d.r != 0.0 && (rem.Num? || rem.Str?))
      && (r.Ok? ==> forall i :: 0 <= i < ctx.N() ==>
            (r.value.bools[i] <==> rem.Num? && FloorMod(col.nums[i], d.r) == rem.r))
  {
    if !p.Str? then Err(UnknownProperty)
    else
      var col :- Resolve(ctx.mol, p.s);
      var m :- Modulo(FromColumn(col), d, rem);
      Ok(BoolArr(m))
  }

  predicate IsLogical(v: Value) { v.BoolArr? || v.Bool? }

  /** The truth value an operand contributes at atom i once broadcast. */
  function BAt(v: Value, i: nat): bool
    requires IsLogical(v)
    requires v.BoolArr? ==> i < |v.bools|
  {
    if v.Bool? then v.b else v.bools[i]
  }

  predicate LogicBroadcastable(a: Value, b: Value) {
    IsLogical(a) && IsLogical(b) && (a.BoolArr? && b.BoolArr? ==> |a.bools| == |b.bools|)
  }

  function LWidth(a: Value, b: Value): nat
    requires IsLogical(a) && IsLogical(b)
  {
    if a.BoolArr? then |a.bools| else if b.BoolArr? then |b.bools| else 0
  }

  /** The elementwise `&` / `|` of lines 98-101: `f` applied after broadcasting. */
  function Logic(a: Value, b: Value, f: (bool, bool) -> bool): (r: Result<Value>)
    ensures r.Ok? <==> LogicBroadcastable(a, b)
    ensures r.Err? ==> r.error == (if IsLogical(a) && IsLogical(b) then ShapeMismatch else TypeMismatch)
    ensures r.Ok? && a.Bool? && b.Bool? ==> r.value == Bool(f(a.b, b.b))
    ensures r.Ok? && (a.BoolArr? || b.BoolArr?) ==>
      && r.value.BoolArr? && |r.value.bools| == LWidth(a, b)
      && (a.BoolArr? ==> |r.value.bools| == |a.bools|) && (b.BoolArr? ==> |r.value.bools| == |b.bools|)
      && forall i :: 0 <= i < |r.value.bools| ==> r.value.bools[i] == f(BAt(a, i), BAt(b, i))
  {
    if !IsLogical(a) || !IsLogical(b) then Err(TypeMismatch)
    else if !LogicBroadcastable(a, b) then Err(ShapeMismatch)
    else if a.Bool? && b.Bool? then Ok(Bool(f(a.b, b.b)))
    else
      var n := LWidth(a, b);
      Ok(BoolArr(seq(n, i requires 0 <= i < n => f(BAt(a, i), BAt(b, i)))))
  }

  /** `~` (line 103): the complement of a mask. On the one boolean that comparing two
      scalars yields, Python's `~` is integer complement: `~b == -b - 1`. */
  function Not(a: Value): (r: Result<Value>)
    ensures r.Ok? <==> IsLogical(a)
    ensures r.Err? ==> r.error == TypeMismatch
    ensures a.BoolArr? ==> (r.value.BoolArr? && |r.value.bools| == |a.bools|
      && forall i :: 0 <= i < |a.bools| ==> r.value.bools[i] == !a.bools[i])
    ensures a.Bool? ==> r.value == Num(-(if a.b then 1.0 else 0.0) - 1.0)
  {
    match a
    case BoolArr(bs) => Ok(BoolArr(seq(|bs|, i requires 0 <= i < |bs| => !bs[i])))
    case Bool(b) => Ok(Num(if b then -2.0 else -1.0))
    case _ => Err(TypeMismatch)
  }

  /** `numprop` (lines 112-120): a coordinate of the active frame, or a mapped attribute. */
  function NumProp(ctx: Context, p: Value): (r: Result<Value>)
    requires ctx.Valid()
    ensures r.Ok? <==> p.Str? && (p.s in {"x", "y", "z"} || p.s in MolPropMap)
    ensures r.Err? ==> r.error == UnknownProperty
    ensures r.Ok? ==> r.value.IsProperty() && r.value.Length() == ctx.N()
    ensures p == Str("x") ==> r.value.NumArr? && forall i :: 0 <= i < ctx.N() ==> r.value.nums[i] == ctx.mol.Coords()[i].x
    ensures p == Str("y") ==> r.value.NumArr? && forall i :: 0 <= i < ctx.N() ==> r.value.nums[i] == ctx.mol.Coords()[i].y
    ensures p == Str("z") ==> r.value.NumArr? && forall i :: 0 <= i < ctx.N() ==> r.value.nums[i] == ctx.mol.Coords()[i].z
    ensures r.Ok? && p.s in MolPropMap ==> r.value == FromColumn(ctx.mol.attrs[MolPropMap[p.s]])
  {
    var c := ctx.mol.Coords();
    if !p.Str? then Err(UnknownProperty)
    else if p.s == "x" then Ok(NumArr(seq(|c|, i requires 0 <= i < |c| => c[i].x)))
    else if p.s == "y" then Ok(NumArr(seq(|c|, i requires 0 <= i < |c| => c[i].y)))
    else if p.s == "z" then Ok(NumArr(seq(|c|, i requires 0 <= i < |c| => c[i].z)))
    else
      var col :- Resolve(ctx.mol, p.s);
      Ok(FromColumn(col))
  }

  /** Operands `==` accepts: numbers and strings, per atom or single. */
  predicate IsPlain(v: Value) { v.IsProperty() || v.Num? || v.Str? }

  function CellAt(v: Value, i: nat): Scalar
    requires IsPlain(v)
    requires v.IsProperty() ==> i < v.Length()
  {
    if v.Num? || v.Str? then AsScalar(v) else v.Cells()[i]
  }

  predicate PlainBroadcastable(a: Value, b: Value) {
    IsPlain(a) && IsPlain(b) && (a.IsProperty() && b.IsProperty() ==> a.Length() == b.Length())
  }

  function PWidth(a: Value, b: Value): nat
    requires IsPlain(a) && IsPlain(b)
  {
    if a.IsProperty() then a.Length() else if b.IsProperty() then b.Length() else 0
  }

  /** `==` (line 126) after broadcasting. A number never equals a string, so a numeric
      array compared with a string is all false. */
  function Equal(a: Value, b: Value): (r: Result<Value>)
    ensures r.Ok? <==> PlainBroadcastable(a, b)
    ensures r.Err? ==> r.error == (if IsPlain(a) && IsPlain(b) then ShapeMismatch else TypeMismatch)
    ensures r.Ok? && !a.IsProperty() && !b.IsProperty() ==> r.value == Bool(AsScalar(a) == AsScalar(b))
    ensures r.Ok? && (a.IsProperty() || b.IsProperty()) ==>
      && r.value.BoolArr? && |r.value.bools| == PWidth(a, b)
      && (a.IsProperty() ==> |r.value.bools| == a.Length()) && (b.IsProperty() ==> |r.value.bools| == b.Length())
      && forall i :: 0 <= i < |r.value.bools| ==> (r.value.bools[i] <==> CellAt(a, i) == CellAt(b, i))
  {
    if !IsPlain(a) || !IsPlain(b) then Err(TypeMismatch)
    else if !PlainBroadcastable(a, b) then Err(ShapeMismatch)
    else if !a.IsProperty() && !b.IsProperty() then Ok(Bool(AsScalar(a) == AsScalar(b)))
    else
      var n := PWidth(a, b);
      Ok(BoolArr(seq(n, i requires 0 <= i < n => CellAt(a, i) == CellAt(b, i))))
  }

  /** On numbers `==` is the numeric comparison. */
  lemma EqualOnNumbers(a: Value, b: Value)
    requires IsNumeric(a) && IsNumeric(b)
    ensures Equal(a, b) == Compare(a, b, (x, y) => x == y)
  {
    if Broadcastable(a, b) && (a.NumArr? || b.NumArr?) {
      var e, c := Equal(a, b).value.bools, Compare(a, b, (x, y) => x == y).value.bools;
      forall i | 0 <= i < |e|
        ensures e[i] == c[i]
      {
        assert CellAt(a, i) == N(At(a, i)) && CellAt(b, i) == N(At(b, i));
      }
      assert e == c;
    }
  }

  /** A numeric array compared with a string is false at every atom. */
  lemma NumbersNeverEqualText(a: Value, s: string)
    requires a.NumArr?
    ensures Equal(a, Str(s)).Ok? && Equal(a, Str(s)).value.BoolArr?
    ensures forall i :: 0 <= i < |a.nums| ==> !Equal(a, Str(s)).value.bools[i]
  {
    forall i | 0 <= i < |a.nums|
      ensures CellAt(a, i) != CellAt(Str(s), i)
    {
      assert CellAt(a, i) == N(a.nums[i]);
    }
  }

  /** `comp` (lines 122-135) once both operands are read. */
  function Comparison(op: Value, a: Value, b: Value): (r: Result<Value>)
    ensures !(op.Str? && op.s in {"=", "<", ">", "<=", ">="}) ==> r == Err(UnknownComparison)
    ensures op == Str("=") ==> r == Equal(a, b)
    ensures op == Str("<") ==> r == Compare(a, b, (x, y) => x < y)
    ensures op == Str(">") ==> r == Compare(a, b, (x, y) => x > y)
    ensures op == Str("<=") ==> r == Compare(a, b, (x, y) => x <= y)
    ensures op == Str(">=") ==> r == Compare(a, b, (x, y) => x >= y)
  {
    if op == Str("=") then Equal(a, b)
    else if op == Str("<") then Compare(a, b, (x, y) => x < y)
    else if op == Str(">") then Compare(a, b, (x, y) => x > y)
    else if op == Str("<=") then Compare(a, b, (x, y) => x <= y)
    else if op == Str(">=") then Compare(a, b, (x, y) => x >= y)
    else Err(UnknownComparison)
  }

  /** `mathop` (lines 149-161) once both operands are read: an unknown operator fails
      only when the operation is applied, after the operands. */
  function MathOp(op: Value, a: Value, b: Value): (r: Result<Value>)
    ensures !(op.Str? && op.s in {"+", "-", "*", "/"}) ==> r == Err(UnknownArithmeticOp)
    ensures op == Str("+") ==> r == Arith(a, b, (x, y) => x + y)
    ensures op == Str("-") ==> r == Arith(a, b, (x, y) => x - y)
    ensures op == Str("*") ==> r == Arith(a, b, (x, y) => x * y)
    ensures op == Str("/") ==> r == Divide(a, b)
  {
    if op == Str("+") then Arith(a, b, (x, y) => x + y)
    else if op == Str("-") then Arith(a, b, (x, y) => x - y)
    else if op == Str("*") then Arith(a, b, (x, y) => x * y)
    else if op == Str("/") then Divide(a, b)
    else Err(UnknownArithmeticOp)
  }

  /** The group value of every atom for `same X as` (lines 166-175): its fragment, a
      mapped attribute, or its sequential residue; two atoms share a group exactly when
      their values agree. */
  function GroupKeys(ctx: Context, p: Value): (r: Result<seq<Scalar>>)
    requires ctx.Valid()
    ensures r.Ok? <==> p.Str? && (p.s == "fragment" || p.s in MolPropMap || p.s == "residue")
    ensures r.Err? ==> r.error == InvalidGroupProperty
    ensures r.Ok? ==> |r.value| == ctx.N()
    ensures p == Str("fragment") ==> forall i, j :: 0 <= i < ctx.N() && 0 <= j < ctx.N() ==>
      (r.value[i] == r.value[j] <==> ctx.analysis.fragments[i] == ctx.analysis.fragments[j])
    ensures p == Str("residue") ==> forall i, j :: 0 <= i < ctx.N() && 0 <= j < ctx.N() ==>
      (r.value[i] == r.value[j] <==> ctx.analysis.residues[i] == ctx.analysis.residues[j])
    ensures r.Ok? && p.s in MolPropMap ==> r.value == FromColumn(ctx.mol.attrs[MolPropMap[p.s]]).Cells()
  {
    var n := ctx.N();
    var a := ctx.analysis;
    if p == Str("fragment") then Ok(seq(n, i requires 0 <= i < n => N(a.fragments[i] as real)))
    else if p.Str? && p.s in MolPropMap then Ok(FromColumn(ctx.mol.attrs[MolPropMap[p.s]]).Cells())
    else if p == Str("residue") then Ok(seq(n, i requires 0 <= i < n => N(a.residues[i] as real)))
    else Err(InvalidGroupProperty)
  }

  /** `sameas` (lines 163-176): every atom sharing its group with some selected atom. The
      property is checked before the selection is used. */
  function SameAsNode(ctx: Context, p: Value, sel: Value): (r: Result<Value>)
    requires ctx.Valid()
    ensures GroupKeys(ctx, p).Err? ==> r == Err(InvalidGroupProperty)
    ensures GroupKeys(ctx, p).Ok? ==> (r.Ok? <==> sel.BoolArr? && |sel.bools| == ctx.N())
    ensures GroupKeys(ctx, p).Ok? && r.Err? ==> r.error == TypeMismatch
    ensures r.Ok? ==> (r.value.BoolArr? && |r.value.bools| == ctx.N()
      && forall i :: 0 <= i < ctx.N() ==>
           (r.value.bools[i] <==> Groups.SharesGroup(GroupKeys(ctx, p).value, sel.bools, i)))
  {
    var keys :- GroupKeys(ctx, p);
    if sel.BoolArr? && |sel.bools| == ctx.N() then Ok(BoolArr(Groups.SameAs(keys, sel.bools)))
    else Err(TypeMismatch)
  }
}
