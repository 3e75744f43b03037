/** The values that flow between nodes of a selection tree. */
module Values {
  import opened Molecules

  /** One element of a per-atom array or of a literal list. */
  datatype Scalar = N(r: real) | S(s: string)

  /** A literal child of a node, as the parser leaves it. */
  datatype Literal = LNum(r: real) | LStr(s: string) | LList(items: seq<Scalar>)

  /** The result of evaluating a node: a per-atom array (booleans, numbers or strings),
      a scalar (a boolean only arises from comparing two scalars), a string or a list. */
  datatype Value =
    | BoolArr(bools: seq<bool>)
    | NumArr(nums: seq<real>)
    | StrArr(strs: seq<string>)
    | Bool(b: bool)
    | Num(r: real)
    | Str(s: string)
    | List(items: seq<Scalar>)
  {
    predicate IsArray() { BoolArr? || NumArr? || StrArr? }

    /** A per-atom property array, the kind the value matcher compares against. */
    predicate IsProperty() { NumArr? || StrArr? }

    function Length(): nat
      requires IsArray()
    {
      if BoolArr? then |bools| else if NumArr? then |nums| else |strs|
    }

    /** Arrays have one entry per atom; other values carry no shape. */
    predicate Shaped(n: nat) { IsArray() ==> Length() == n }

    /** The elements of a property array as scalars. */
    function Cells(): (c: seq<Scalar>)
      requires IsProperty()
      ensures |c| == Length()
    {
      if NumArr? then seq(|nums|, i requires 0 <= i < |nums| => N(nums[i]))
      else seq(|strs|, i requires 0 <= i < |strs| => S(strs[i]))
    }
  }

  function FromLiteral(l: Literal): (v: Value)
    ensures !v.IsArray()
  {
    match l
    case LNum(r) => Num(r)
    case LStr(s) => Str(s)
    case LList(items) => List(items)
  }

  function FromColumn(c: Column): (v: Value)
    ensures v.IsProperty() && v.Length() == c.Length()
    ensures c.Nums? ==> v == NumArr(c.nums)
    ensures c.Strs? ==> v == StrArr(c.strs)
  {
    match c
    case Nums(ns) => NumArr(ns)
    case Strs(ss) => StrArr(ss)
  }

  /** The scalar a single literal compares as. */
  function AsScalar(v: Value): Scalar
    requires v.Num? || v.Str?
  {
    if v.Num? then N(v.r) else S(v.s)
  }
}
