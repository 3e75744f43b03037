# moleculekit atom selection evaluator, modelled in Dafny

This project models the evaluator of moleculekit's atom-selection language,
`traverse_ast` in `moleculekit/atomselect/atomselect.py`, together with:

- the property map `molpropmap` it resolves names through;
- the error wrapper `atomselect`, which turns any failure into one selection error.

The parser's output is taken as input: a tree of `Node(op, args)` whose children are
literals (numbers, strings, lists) or nested nodes.

The tree is evaluated against three things: a molecule, a precomputed structural analysis,
and two routines the source calls out to. The routines are a square root and the distance
test of the compiled `within_distance`. The molecule is a map from attribute names to
per-atom columns, plus coordinate frames. The analysis holds the class masks, fragments and
sequential residues. Every node's value is one of:

- a per-atom array: booleans, numbers or strings;
- a number or a string;
- a literal list;
- the single boolean that comparing two scalars yields.

Failures are values (`Result`). Evaluation stops at the first failure, and `atomselect`
turns it into `ParseFailure` or `SelectionFailed` with no mask.

Modules:

- `Errors`: the error kinds and `Result`.
- `Molecules`: the molecule, the analysis, `molpropmap` and the attribute lookup.
- `Values`: node values and literals.
- `Matching`: the value matcher of `molprop_*_eq`:
  - equality;
  - the start-anchored `.*` pattern;
  - list membership;
  - the unreachable pairwise branch, as a nested-loop method.
- `Numeric`: broadcasting arithmetic, comparisons, `abs`/`sqr`/`sqrt`, floor modulo.
- `Groups`: `same X as`.
- `Spatial`: `within`/`exwithin`. The zeroed mask is an `array<bool>`. The bounding box is
  computed by a loop. The distance routine fills the mask in place with a pruning loop, and
  the source bits are then cleared in place.
- `Operators`: one function per node kind.
- `Evaluator`: the dispatcher and the recursive `Eval`. `TraverseAst` is the imperative
  traversal, in which children are rewritten into a copy of the node one position at a
  time; it is proved equal to `Eval`. `AtomSelect` is the error wrapper.
- `Properties`: lemmas about whole selection trees.

Behaviour reproduced from the code:

- A list comparand always takes literal membership (`np.isin`). The guard at line 69 holds
  for every list, so lines 71-79 never run. A list member such as `"C.*"` is therefore
  compared literally (`Matching.ListWildcardIsLiteral`). Lines 71-79 suggest that lists with
  wildcard members were meant to be matched member by member; the guard at line 69 prevents
  that, and the model follows the guard. Had lines 72-79 run, they
  would have produced `|x| * |y|` entries rather than one per atom
  (`Matching.PairRowsLength`, `Matching.PairRowsAt`).
- `%` is numpy's floor modulo: the remainder takes the divisor's sign (`Numeric.FloorMod`).
- The modulo test reads `molpropmap` directly, so `index` and `residue` fail there, although
  equality matching accepts them (`Properties.ModuloRejectsIndex`).
- An unknown arithmetic operator fails only after both operands are read (line 161). An
  unknown function fails before its argument is read.
- `within`/`exwithin` with an empty source returns the all-false mask before the cutoff is
  looked at.
- `~` on the single boolean of a scalar comparison is Python's integer complement
  (`~True == -2`). This holds for Python booleans only; see `Operators.Not` under
  "Left out" for numpy booleans.
- A numeric array compared with a string with `=` is all false, as in numpy from
  version 1.25.

## Model

| member | source | states |
|---|---|---|
| `Molecules.Resolve` | moleculekit/atomselect/atomselect.py:8-23 | a name resolves exactly when it is a key of the property map; the result is the mapped attribute with one entry per atom; any other name is UnknownProperty |
| `Matching.SegmentsJoin` | moleculekit/atomselect/atomselect.py:64-67 | splitting a pattern on `.*` and joining the pieces back with `.*` gives the pattern again |
| `Matching.PrefixPatternMatch` | moleculekit/atomselect/atomselect.py:67 | for a literal prefix P, the pattern `P.*` matches exactly the strings that begin with P |
| `Matching.NameStartsWithC` | moleculekit/atomselect/atomselect.py:67 | `"C.*"` matches exactly the strings whose first character is `C` |
| `Matching.MatchValue` | moleculekit/atomselect/atomselect.py:62-79 | a list gives membership of each atom's value in the list; a number or a string without `.*` gives elementwise equality; a string with `.*` gives a per-atom pattern match on a string property and fails on a numeric one; the result has one entry per atom; every failure is TypeMismatch |
| `Matching.ListWildcardIsLiteral` | moleculekit/atomselect/atomselect.py:69-70 | the list `["C.*"]` selects only atoms whose value is literally `"C.*"` |
| `Matching.ResnameListMatch` | moleculekit/atomselect/atomselect.py:69-70 | the list `ACE NME` selects exactly the values "ACE" and "NME" |
| `Matching.PairRowsLength` | moleculekit/atomselect/atomselect.py:72-79 | the unreachable branch would produce `|x| * |y|` entries |
| `Matching.PairRowsAt` | moleculekit/atomselect/atomselect.py:72-79 | entry `i * |y| + k` of that branch compares atom i with list member k, by pattern when the member has `.*` and by equality otherwise |
| `Matching.PairwiseMatch` | moleculekit/atomselect/atomselect.py:72-79 | the nested append loops build exactly those entries, in that order |
| `Numeric.Arith` | moleculekit/atomselect/atomselect.py:149-161 | it succeeds exactly on numeric operands of compatible shape; a scalar is broadcast against an array; every element is the operator applied to the broadcast elements; the result keeps the array's length |
| `Numeric.Compare` | moleculekit/atomselect/atomselect.py:122-135 | the same broadcasting for comparisons; two scalars give one boolean and an array operand gives a per-atom mask |
| `Numeric.MapNum` | moleculekit/atomselect/atomselect.py:106-107 | a unary numeric function is applied to every element and keeps the length; a non-numeric operand is TypeMismatch |
| `Numeric.SubtractIsAddNegated` | moleculekit/atomselect/atomselect.py:151-154 | on arrays, `a - b` equals `a + (-b)` element by element |
| `Numeric.AbsR` | moleculekit/atomselect/atomselect.py:139-140 | the absolute value is non-negative and is either x or -x |
| `Numeric.Sqrt` | moleculekit/atomselect/atomselect.py:143-146 | it fails exactly when the operand is non-numeric or some element is negative, and then never applies the square root; otherwise every element is non-negative and is replaced by its root |
| `Numeric.Divide` | moleculekit/atomselect/atomselect.py:157-158 | division with broadcasting; it succeeds exactly when no divisor element is zero; a zero divisor is DivisionByZero; every result element is the quotient of the broadcast elements |
| `Numeric.FloorMod` | moleculekit/atomselect/atomselect.py:94 | the remainder lies between 0 and the divisor and has the divisor's sign, and `x == d * floor(x / d) + r` |
| `Numeric.FloorModBounds` | moleculekit/atomselect/atomselect.py:94 | `x - d * floor(x / d)` lies within the divisor's range |
| `Numeric.FloorModOfIntegers` | moleculekit/atomselect/atomselect.py:94 | on integers with a positive divisor the floor modulo is the ordinary non-negative remainder |
| `Numeric.Modulo` | moleculekit/atomselect/atomselect.py:90-94 | it succeeds exactly for a numeric property, a non-zero numeric divisor and a numeric or string remainder; atom i is selected exactly when its floor remainder equals a numeric remainder; a string remainder selects nothing |
| `Groups.SameAs` | moleculekit/atomselect/atomselect.py:163-176 | atom i is selected exactly when some selected atom j has the same group value; one entry per atom |
| `Groups.SameAsContains` | moleculekit/atomselect/atomselect.py:163-176 | the expansion contains the selection |
| `Groups.SameAsEmpty` | moleculekit/atomselect/atomselect.py:163-176 | an empty selection expands to nothing |
| `Groups.SameAsIdempotent` | moleculekit/atomselect/atomselect.py:163-176 | expanding the expansion gives the same mask |
| `Spatial.WithinMask` | moleculekit/atomselect/atomselect.py:178-199 | the answer mask has one entry per atom |
| `Spatial.Within` | moleculekit/atomselect/atomselect.py:178-199 | it succeeds exactly for a per-atom boolean source that is empty or comes with a numeric cutoff; an empty source gives the all-false mask whatever the cutoff; failures are TypeMismatch |
| `Spatial.ExwithinIsWithinLessSource` | moleculekit/atomselect/atomselect.py:197-198 | `exwithin` is `within` with the source bits cleared; it is contained in `within` and disjoint from the source; for a non-negative cutoff and a self-inclusive distance test the two differ exactly on the source |
| `Spatial.TrueIndices` | moleculekit/atomselect/atomselect.py:192 | the listed indices are in bounds, all selected, and strictly increasing |
| `Spatial.TrueIndicesComplete` | moleculekit/atomselect/atomselect.py:192 | every selected atom is listed |
| `Spatial.BoundingBox` | moleculekit/atomselect/atomselect.py:185-187 | on every axis the minimum is at most every source coordinate and that coordinate is at most the maximum; each bound is attained by some source atom |
| `Spatial.PruneIsSound` | moleculekit/atomselect/atomselect.py:186-194 | an atom outside the source box grown by the cutoff is near no source atom |
| `Spatial.WithinDistance` | moleculekit/atomselect/atomselect.py:189-196 | an illustrative implementation of the compiled routine; only its postcondition is claimed for the routine: handed the zeroed mask, it sets exactly the atoms within the cutoff of some listed source atom |
| `Spatial.NearListed` | moleculekit/atomselect/atomselect.py:192 | being near a listed index is being near a selected atom |
| `Spatial.ClearSource` | moleculekit/atomselect/atomselect.py:198 | `mask[source] = False`: every source bit is cleared and every other bit is kept |
| `Spatial.MarkNear` | moleculekit/atomselect/atomselect.py:185-196 | for a non-empty source the zeroed mask ends up marking exactly the atoms near some source atom |
| `Spatial.WithinSelect` | moleculekit/atomselect/atomselect.py:178-199 | the in-place mask computation returns exactly `Spatial.Within` |
| `Operators.Arg` | moleculekit/atomselect/atomselect.py:36-181 | the `node[k]` reads at lines 36, 58-59, 91-93, 113, 123-124, 138-140, 150-160, 164-165 and 180-181: child k of the node is present exactly when the node has k children, and it is that child; otherwise MalformedAst (Python's IndexError) |
| `Operators.Keyword` | moleculekit/atomselect/atomselect.py:35-55 | it succeeds exactly on the twelve words of the vocabulary; each word maps to its analysis mask; `hydrogen`/`noh` test the element for "H"; `backbone` is the union of the protein and nucleic backbones; anything else is UnknownKeyword |
| `Operators.PropertyArray` | moleculekit/atomselect/atomselect.py:81-88 | it succeeds exactly on mapped names, `index` and `residue`; it yields the mapped attribute, the atom index, or the sequential residue number, one per atom; anything else is UnknownProperty |
| `Operators.PropertyMatch` | moleculekit/atomselect/atomselect.py:57-88 | an unknown property fails before the comparand is examined; otherwise the result is the matcher's per-atom mask |
| `Operators.ModuloTest` | moleculekit/atomselect/atomselect.py:90-94 | only names in the property map are accepted; on a numeric attribute atom i is selected exactly when its floor remainder by the divisor equals the remainder |
| `Operators.Logic` | moleculekit/atomselect/atomselect.py:96-101 | `&`/`|` with broadcasting on masks and single booleans; masks of different lengths are ShapeMismatch; other operands are TypeMismatch |
| `Operators.Not` | moleculekit/atomselect/atomselect.py:102-103 | a mask is complemented element by element; the single boolean b becomes the number `-b - 1`; other operands are TypeMismatch |
| `Operators.NumProp` | moleculekit/atomselect/atomselect.py:112-120 | `x`/`y`/`z` are the active frame's coordinates; a mapped name is its attribute; anything else is UnknownProperty; one entry per atom |
| `Operators.Equal` | moleculekit/atomselect/atomselect.py:125-126 | `==` broadcast over numbers and strings; each entry is the equality of the broadcast cells; two scalars give one boolean |
| `Operators.EqualOnNumbers` | moleculekit/atomselect/atomselect.py:125-126 | on numbers, `==` agrees with the numeric comparison |
| `Operators.NumbersNeverEqualText` | moleculekit/atomselect/atomselect.py:125-126 | a numeric array compared with a string is false at every atom |
| `Operators.Comparison` | moleculekit/atomselect/atomselect.py:122-135 | the five operators each select their comparison; any other operator is UnknownComparison |
| `Operators.MathOp` | moleculekit/atomselect/atomselect.py:149-161 | `+ - *` are broadcast arithmetic and `/` is guarded division; any other operator is UnknownArithmeticOp |
| `Operators.GroupKeys` | moleculekit/atomselect/atomselect.py:166-175 | group values exist exactly for `fragment`, mapped names and `residue`; two atoms share a key exactly when their fragments, residues or attribute values agree; anything else is InvalidGroupProperty |
| `Operators.SameAsNode` | moleculekit/atomselect/atomselect.py:163-176 | the property is checked before the selection; a per-atom selection gives the atoms sharing a group with a selected atom |
| `Evaluator.Dispatch` | moleculekit/atomselect/atomselect.py:35-201 | an unknown operation tag is UnknownOperation; a `logop` whose operator is not `and`, `or` or `not` is UnknownLogicalOp; a `func` whose name is not `abs`, `sqr` or `sqrt` is UnknownFunction; a result computed from per-atom children has one entry per atom |
| `Evaluator.Eval` | moleculekit/atomselect/atomselect.py:26-201 | every value a tree evaluates to that is an array has one entry per atom |
| `Evaluator.EvalArgs` | moleculekit/atomselect/atomselect.py:31-33 | the children evaluate to one value each, all with one entry per atom where they are arrays |
| `Evaluator.EvalArgsStep` | moleculekit/atomselect/atomselect.py:31-33 | the children's outcome is child k's value in front of the outcome of the rest |
| `Evaluator.TraverseAst` | moleculekit/atomselect/atomselect.py:26-201 | the imperative traversal returns exactly `Eval` |
| `Evaluator.TraverseChildren` | moleculekit/atomselect/atomselect.py:27-33 | the copy-and-rewrite loop over the children returns exactly `EvalArgs`, and the first failure propagates |
| `Evaluator.Apply` | moleculekit/atomselect/atomselect.py:178-199 | the node rule run with the in-place `within` route gives exactly `Dispatch` |
| `Evaluator.AtomSelect` | moleculekit/atomselect/atomselect.py:204-221 | a parse failure is ParseFailure; an evaluation failure is SelectionFailed, naming the selection and the cause; success returns the evaluator's value unchanged; no other error escapes |
| `Properties.AndIsElementwise` | moleculekit/atomselect/atomselect.py:98-99 | `A and B` on two masks is their elementwise conjunction, one entry per atom |
| `Properties.OrIsElementwise` | moleculekit/atomselect/atomselect.py:100-101 | `A or B` on two masks is their elementwise disjunction |
| `Properties.AndOrCommute` | moleculekit/atomselect/atomselect.py:96-101 | `and` and `or` of masks commute |
| `Properties.AndOrAssociate` | moleculekit/atomselect/atomselect.py:96-101 | `and` and `or` of masks associate: `(A and B) and C` is `A and (B and C)`, and likewise for `or` |
| `Properties.NotIsComplement` | moleculekit/atomselect/atomselect.py:102-103 | `not A` is the complement, and `not not A` is A |
| `Properties.HydrogenIsNotNoh` | moleculekit/atomselect/atomselect.py:43-46 | `hydrogen` is exactly the complement of `noh`, and selects the atoms whose element is "H" |
| `Properties.BackboneIsUnion` | moleculekit/atomselect/atomselect.py:47-48 | `backbone` is the union of the protein and nucleic backbones |
| `Properties.UnknownKeywordFails` | moleculekit/atomselect/atomselect.py:55 | a word outside the vocabulary fails with UnknownKeyword |
| `Properties.UnknownLogicalOpFails` | moleculekit/atomselect/atomselect.py:104 | a logical operator other than `and`, `or` and `not` fails with UnknownLogicalOp once the operands have evaluated, whatever they are |
| `Properties.UnknownFunctionFails` | moleculekit/atomselect/atomselect.py:147 | a function other than `abs`, `sqr` and `sqrt` fails with UnknownFunction once its operands have evaluated, whatever they are |
| `Properties.ResnameListSelects` | moleculekit/atomselect/atomselect.py:69-70 | `resname ACE NME` selects exactly residue names ACE and NME |
| `Properties.NamePatternSelects` | moleculekit/atomselect/atomselect.py:64-67 | `name "C.*"` selects exactly the names starting with C |
| `Properties.SingleValueIsEquality` | moleculekit/atomselect/atomselect.py:63-65 | a single number, or a string without `.*`, selects by equality with the attribute |
| `Properties.SameAsTree` | moleculekit/atomselect/atomselect.py:163-176 | `same X as S` contains S and is idempotent, for every valid X |
| `Properties.SameResidueSelectsResidues` | moleculekit/atomselect/atomselect.py:173-175 | `same residue as S` selects every atom whose residue holds a selected atom |
| `Properties.SameAsUnknownFails` | moleculekit/atomselect/atomselect.py:176 | a `same` property other than fragment, residue or a mapped name fails with InvalidGroupProperty |
| `Properties.ExwithinTree` | moleculekit/atomselect/atomselect.py:178-199 | on trees, `exwithin C of S` is `within C of S` less S; for a non-negative cutoff and a self-inclusive test the two differ exactly on S |
| `Properties.WithinEmptySource` | moleculekit/atomselect/atomselect.py:179-183 | an empty source selects nothing, whatever the cutoff literal |
| `Properties.SqrtRejectsNegative` | moleculekit/atomselect/atomselect.py:143-145 | `sqrt` of an expression with a negative element fails with NegativeSqrtArgument |
| `Properties.EvalArgsFails` | moleculekit/atomselect/atomselect.py:31-33 | a failing nested child makes the children's evaluation fail |
| `Properties.ChildErrorAborts` | moleculekit/atomselect/atomselect.py:213-218 | one failing subtree fails the whole tree, and `atomselect` reports SelectionFailed with no mask |
| `Properties.UnknownOperationFails` | moleculekit/atomselect/atomselect.py:201 | an unknown operation tag fails with UnknownOperation |
| `Properties.LessIsNotAtLeast` | moleculekit/atomselect/atomselect.py:127-134 | on per-atom numbers `a < b` is `not (a >= b)` |
| `Properties.SubtractIsAddNegatedTree` | moleculekit/atomselect/atomselect.py:151-154 | on per-atom numbers `a - b` is `a + -b` |
| `Properties.AbsIsNonNegative` | moleculekit/atomselect/atomselect.py:139-140 | `abs(e)` is never negative and equals e where e is non-negative |
| `Properties.ModuloRejectsIndex` | moleculekit/atomselect/atomselect.py:90-94 | `index % d == r` fails with UnknownProperty, while `index r` evaluates |
| `Properties.ModuloOnWholeSerials` | moleculekit/atomselect/atomselect.py:94 | `serial % d == r` on whole serial numbers with a positive divisor is the ordinary remainder test |

## Left out

- The parser (`languageparser.parser`, lines 1 and 209) is not part of this model. Its
  output is the `Parsed` input of `AtomSelect`.
- `analyze` (lines 2 and 206) is not part of this model. The analysis is an input record
  of per-atom sequences. When `atomselect` is given no analysis it computes one; that call
  is not modelled.
- The compiled `within_distance` routine is modelled by `Spatial.WithinDistance` over an
  uninterpreted distance test `near`. It is specified by two assumptions:
  - an accepted atom is within the cutoff on every axis (`Spatial.NearImpliesClose`);
  - every atom is near itself for a non-negative cutoff (`Spatial.SelfInclusive`); only the
    lemma that needs it assumes it.
  Its float distance maths is not modelled.
- Numbers are mathematical reals:
  - integers and floats are not distinguished;
  - float32 coordinates, rounding and overflow are not modelled;
  - `np.sqrt` is an uninterpreted parameter (`Kernels.sqrt`).
- `Numeric.Divide`: a zero divisor is reported as DivisionByZero. For two scalar operands
  this agrees with Python, which raises ZeroDivisionError. It differs when an operand comes
  from numpy (a property array, or a scalar from `abs` or `sqrt`): numpy yields inf/NaN with
  a warning.
- `Numeric.Modulo`: a zero divisor is reported as DivisionByZero, where numpy yields NaN
  or 0 for the property array that is always the left operand.
- Patterns: only `.*` is interpreted. It is anchored at the start, like `re.match`, and
  does not cross a line break. Every other regular-expression metacharacter is read
  literally.
- The dynamic `getattr` on the molecule is replaced by the finite `attrs` map. Attribute
  dtypes are two kinds: text for name, element, resname, insertion, chain, segid and
  altloc, and numbers for the rest.
- `Operators.Logic`: `&` and `|` on integer arrays (numpy's bitwise operators) are
  TypeMismatch here.
- `Operators.Not`: `~` on integer arrays is TypeMismatch here. The model also does not
  track whether a scalar boolean comes from Python or from numpy. A comparison involving
  the numpy scalar returned by `abs` or `sqrt` of a number yields a numpy boolean, and `~`
  on that is logical negation. The model gives the integer complement `-b - 1` for every
  scalar boolean.
- `Operators.Comparison`: `<`, `>`, `<=` and `>=` on strings are TypeMismatch here; numpy
  orders strings lexicographically.
- Arithmetic, negation and modulo on booleans, and comparisons with mixed booleans, are
  TypeMismatch; Python treats booleans as 0 and 1.
- Lists of mixed numbers and strings keep numpy's exact `np.isin` element coercion out of
  scope. A number never equals a string.
- Error message texts are not modelled, and neither is the AST trace appended to them.
  The model keeps the error kind and, for `atomselect`, the selection string.
- `_return_ast` and `_debug` are not modelled; they only change what is returned
  alongside the mask and how verbose the parser is.
- The test class (lines 224-380) is not modelled: it downloads structures, reads pickles
  and times runs.
- The molecule's active frame is a given index. Changing frames is not part of the
  evaluator.
- Some operations that numpy completes without an error are TypeMismatch in the model:
  `abs` or `sqrt` of a boolean mask, `within C of (1 > 2)` (numpy treats the single `False`
  as an empty source and returns the zero mask), and `x == y` between two masks.
