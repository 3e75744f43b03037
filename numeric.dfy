/** The numeric evaluator: arithmetic, comparisons, `abs` / `sqr` / `sqrt`, unary minus and
    the modulo test, with numpy's broadcasting of a scalar against a per-atom array. */
module Numeric {
  import opened Errors
  import opened Values

  predicate IsNumeric(v: Value) { v.NumArr? || v.Num? }

  /** The number an operand contributes at atom i once broadcast: a scalar stands for
      every atom. */
  function At(v: Value, i: nat): real
    requires IsNumeric(v)
    requires v.NumArr? ==> i < |v.nums|
  {
    if v.Num? then v.r else v.nums[i]
  }

  /** Two numeric operands whose shapes numpy can combine: arrays of equal length, or an
      array and a scalar, or two scalars. */
  predicate Broadcastable(a: Value, b: Value) {
    IsNumeric(a) && IsNumeric(b) && (a.NumArr? && b.NumArr? ==> |a.nums| == |b.nums|)
  }

  /** The length of the broadcast result (0 for two scalars). */
  function Width(a: Value, b: Value): nat
    requires IsNumeric(a) && IsNumeric(b)
  {
    if a.NumArr? then |a.nums| else if b.NumArr? then |b.nums| else 0
  }

  /** Why two operands cannot be combined. */
  function BroadcastError(a: Value, b: Value): Error {
    if !IsNumeric(a) || !IsNumeric(b) then TypeMismatch else ShapeMismatch
  }

  /** A binary arithmetic operator `f` applied elementwise after broadcasting. */
  function Arith(a: Value, b: Value, f: (real, real) -> real): (r: Result<Value>)
    ensures r.Ok? <==> Broadcastable(a, b)
    ensures r.Err? ==> r.error == BroadcastError(a, b)
    ensures r.Ok? && a.Num? && b.Num? ==> r.value == Num(f(a.r, b.r))
    ensures r.Ok? && (a.NumArr? || b.NumArr?) ==>
      && r.value.NumArr? && |r.value.nums| == Width(a, b)
      && (a.NumArr? ==> |r.value.nums| == |a.nums|) && (b.NumArr? ==> |r.value.nums| == |b.nums|)
      && forall i :: 0 <= i < |r.value.nums| ==> r.value.nums[i] == f(At(a, i), At(b, i))
  {
    if !Broadcastable(a, b) then Err(BroadcastError(a, b))
    else if a.Num? && b.Num? then Ok(Num(f(a.r, b.r)))
    else
      var n := Width(a, b);
      Ok(NumArr(seq(n, i requires 0 <= i < n => f(At(a, i), At(b, i)))))
  }

  /** A comparison `f` applied elementwise after broadcasting; two scalars give one boolean. */
  function Compare(a: Value, b: Value, f: (real, real) -> bool): (r: Result<Value>)
    ensures r.Ok? <==> Broadcastable(a, b)
    ensures r.Err? ==> r.error == BroadcastError(a, b)
    ensures r.Ok? && a.Num? && b.Num? ==> r.value == Bool(f(a.r, b.r))
    ensures r.Ok? && (a.NumArr? || b.NumArr?) ==>
      && r.value.BoolArr? && |r.value.bools| == Width(a, b)
      && (a.NumArr? ==> |r.value.bools| == |a.nums|) && (b.NumArr? ==> |r.value.bools| == |b.nums|)
      && forall i :: 0 <= i < |r.value.bools| ==> r.value.bools[i] == f(At(a, i), At(b, i))
  {
    if !Broadcastable(a, b) then Err(BroadcastError(a, b))
    else if a.Num? && b.Num? then Ok(Bool(f(a.r, b.r)))
    else
      var n := Width(a, b);
      Ok(BoolArr(seq(n, i requires 0 <= i < n => f(At(a, i), At(b, i)))))
  }

  /** A unary numeric function applied to every element. */
  function MapNum(v: Value, f: real -> real): (r: Result<Value>)
    ensures r.Ok? <==> IsNumeric(v)
    ensures r.Err? ==> r.error == TypeMismatch
    ensures r.Ok? && v.Num? ==> r.value == Num(f(v.r))
    ensures r.Ok? && v.NumArr? ==>
      && r.value.NumArr? && |r.value.nums| == |v.nums|
      && forall i :: 0 <= i < |v.nums| ==> r.value.nums[i] == f(v.nums[i])
  {
    match v
    case Num(x) => Ok(Num(f(x)))
    case NumArr(xs) => Ok(NumArr(seq(|xs|, i requires 0 <= i < |xs| => f(xs[i]))))
    case _ => Err(TypeMismatch)
  }

  /** Unary minus (line 107). */
  function Neg(x: real): real { -x }

  /** Subtracting is adding the negation, element by element. */
  lemma SubtractIsAddNegated(a: Value, b: Value)
    requires a.NumArr? && b.NumArr? && |a.nums| == |b.nums|
    ensures Arith(a, b, (x, y) => x - y) == Arith(a, MapNum(b, Neg).value, (x, y) => x + y)
  {
    var l := Arith(a, b, (x, y) => x - y).value.nums;
    var r := Arith(a, MapNum(b, Neg).value, (x, y) => x + y).value.nums;
    assert l == r;
  }

  function AbsR(x: real): (r: real)
    ensures r >= 0.0 && (r == x || r == -x)
  {
    if x < 0.0 then -x else x
  }

  /** Some element of a numeric operand is negative. */
  predicate AnyNegative(v: Value)
    requires IsNumeric(v)
  {
    if v.Num? then v.r < 0.0 else exists i | 0 <= i < |v.nums| :: v.nums[i] < 0.0
  }

  /** `sqrt` (lines 143-146): fails when any element is negative, and applies the square
      root routine `sqrt` only when every element is non-negative. */
  function Sqrt(v: Value, sqrt: real -> real): (r: Result<Value>)
    ensures r.Err? <==> !IsNumeric(v) || AnyNegative(v)
    ensures r.Err? && IsNumeric(v) ==> r.error == NegativeSqrtArgument
    ensures r.Ok? && v.Num? ==> v.r >= 0.0 && r.value == Num(sqrt(v.r))
    ensures r.Ok? && v.NumArr? ==>
      && r.value.NumArr? && |r.value.nums| == |v.nums|
      && forall i :: 0 <= i < |v.nums| ==> v.nums[i] >= 0.0 && r.value.nums[i] == sqrt(v.nums[i])
  {
    if !IsNumeric(v) then Err(TypeMismatch)
    else if AnyNegative(v) then Err(NegativeSqrtArgument)
    else MapNum(v, sqrt)
  }

  /** Some element of a numeric operand is zero. */
  predicate AnyZero(v: Value)
    requires IsNumeric(v)
  {
    if v.Num? then v.r == 0.0 else exists i | 0 <= i < |v.nums| :: v.nums[i] == 0.0
  }

  /** `/` (line 158) with an explicit policy for a zero divisor: DivisionByZero. */
  function Divide(a: Value, b: Value): (r: Result<Value>)
    ensures r.Ok? <==> Broadcastable(a, b) && !AnyZero(b)
    ensures r.Err? && Broadcastable(a, b) ==> r.error == DivisionByZero
    ensures r.Ok? && a.Num? && b.Num? ==> b.r != 0.0 && r.value == Num(a.r / b.r)
    ensures r.Ok? && (a.NumArr? || b.NumArr?) ==>
      && r.value.NumArr? && |r.value.nums| == Width(a, b)
      && (a.NumArr? ==> |r.value.nums| == |a.nums|) && (b.NumArr? ==> |r.value.nums| == |b.nums|)
      && forall i :: 0 <= i < |r.value.nums| ==> At(b, i) != 0.0 && r.value.nums[i] == At(a, i) / At(b, i)
  {
    if !Broadcastable(a, b) then Err(BroadcastError(a, b))
    else if AnyZero(b) then Err(DivisionByZero)
    else Arith(a, b, (x, y) => if y == 0.0 then 0.0 else x / y)
  }

  /** Python's and numpy's `%`: the remainder takes the sign of the divisor. */
  function FloorMod(x: real, d: real): (r: real)
    requires d != 0.0
    ensures d > 0.0 ==> 0.0 <= r < d
    ensures d < 0.0 ==> d < r <= 0.0
    ensures x == d * ((x / d).Floor as real) + r
  {
    var q := (x / d).Floor as real;
    FloorModBounds(x, d, q);
    x - d * q
  }

  lemma FloorModBounds(x: real, d: real, q: real)
    requires d != 0.0 && q == (x / d).Floor as real
    ensures d > 0.0 ==> 0.0 <= x - d * q < d
    ensures d < 0.0 ==> d < x - d * q <= 0.0
  {
    var u := x / d - q;
    assert 0.0 <= u < 1.0;
    ScaleFraction(d, u, x - d * q);
  }

  lemma ScaleFraction(d: real, u: real, e: real)
    requires 0.0 <= u < 1.0 && e == d * u
    ensures d > 0.0 ==> 0.0 <= e < d
    ensures d < 0.0 ==> d < e <= 0.0
  {
    assert e - d == d * (u - 1.0);
  }

  /** On integers with a positive divisor the floor modulo is Dafny's own `%`. */
  lemma FloorModOfIntegers(x: int, d: int)
    requires d > 0
    ensures FloorMod(x as real, d as real) == (x % d) as real
  {
    var q, m := x / d, x % d;
    var xr, dr, qr, mr := x as real, d as real, q as real, m as real;
    assert x == d * q + m && 0 <= m < d;
    assert xr == dr * qr + mr by { assert (d * q) as real == dr * qr; }
    var t := xr / dr;
    assert t == qr + mr / dr;
    assert 0.0 <= mr / dr < 1.0;
    assert t.Floor == q;
    assert FloorMod(xr, dr) == xr - dr * qr;
  }

  /** The modulo test of line 94: `(prop % d) == rem`, elementwise. A string remainder
      matches nothing; a zero divisor is reported as DivisionByZero. */
  function Modulo(prop: Value, d: Value, rem: Value): (r: Result<seq<bool>>)
    ensures r.Ok? <==> prop.NumArr? && d.Num? && d.r != 0.0 && (rem.Num? || rem.Str?)
    ensures r.Ok? ==>
      && |r.value| == |prop.nums|
      && forall i :: 0 <= i < |prop.nums| ==>
           (r.value[i] <==> rem.Num? && FloorMod(prop.nums[i], d.r) == rem.r)
  {
    if !prop.NumArr? || !d.Num? || !(rem.Num? || rem.Str?) then Err(TypeMismatch)
    else if d.r == 0.0 then Err(DivisionByZero)
    else
      var xs := prop.nums;
      Ok(seq(|xs|, i requires 0 <= i < |xs| => N(FloorMod(xs[i], d.r)) == AsScalar(rem)))
  }
}
