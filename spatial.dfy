/** The spatial query adapter behind `within C of sel` and `exwithin C of sel`
    (lines 178-199), with the distance routine it delegates to. */
module Spatial {
  import opened Errors
  import opened Values
  import opened Molecules
  import Numeric

  /** Per-axis closeness: on every axis the two points differ by at most c. */
  predicate Close(p: Point, q: Point, c: real) {
    Numeric.AbsR(p.x - q.x) <= c && Numeric.AbsR(p.y - q.y) <= c && Numeric.AbsR(p.z - q.z) <= c
  }

  /** The distance test of the compiled routine, near(c, i, j): atom i lies within
      cutoff c of atom j. The model only assumes that an atom within the cutoff is
      within it on every axis, which is what the routine's bounding-box pruning relies on. */
  ghost predicate NearImpliesClose(coords: seq<Point>, near: (real, nat, nat) -> bool) {
    forall c: real, i: nat, j: nat | i < |coords| && j < |coords| && near(c, i, j) :: Close(coords[i], coords[j], c)
  }

  /** Every source atom is within any non-negative cutoff of itself. */
  ghost predicate SelfInclusive(near: (real, nat, nat) -> bool) {
    forall c: real, j: nat | 0.0 <= c :: near(c, j, j)
  }

  predicate InBox(p: Point, lo: Point, hi: Point) {
    lo.x <= p.x <= hi.x && lo.y <= p.y <= hi.y && lo.z <= p.z <= hi.z
  }

  function Grow(lo: Point, hi: Point, c: real): (Point, Point) {
    (Point(lo.x - c, lo.y - c, lo.z - c), Point(hi.x + c, hi.y + c, hi.z + c))
  }

  function Zeros(n: nat): (z: seq<bool>)
    ensures |z| == n && forall i :: 0 <= i < n ==> !z[i]
  {
    seq(n, _ => false)
  }

  predicate Any(s: seq<bool>) {
    exists j | 0 <= j < |s| :: s[j]
  }

  /** Some source atom j has atom i within cutoff c of it. */
  predicate NearSource(near: (real, nat, nat) -> bool, c: real, source: seq<bool>, i: nat) {
    exists j | 0 <= j < |source| :: source[j] && near(c, i, j)
  }

  /** The mask the adapter answers with: atoms within the cutoff of some source atom,
      less the source atoms themselves when the query is exclusive. */
  function WithinMask(n: nat, near: (real, nat, nat) -> bool, c: real, source: seq<bool>, exclusive: bool): (m: seq<bool>)
    requires |source| == n
    ensures |m| == n
  {
    seq(n, i requires 0 <= i < n => NearSource(near, c, source, i) && !(exclusive && source[i]))
  }

  /** Lines 178-199 on evaluated operands. The emptiness test comes first, so an empty
      source yields the all-false mask whatever the cutoff is. */
  function Within(n: nat, near: (real, nat, nat) -> bool, exclusive: bool, cutoff: Value, source: Value): (r: Result<Value>)
    ensures r.Ok? ==> r.value.BoolArr? && |r.value.bools| == n
    ensures r.Ok? <==> source.BoolArr? && |source.bools| == n && (!Any(source.bools) || cutoff.Num?)
    ensures r.Err? ==> r.error == TypeMismatch
    ensures r.Ok? && !Any(source.bools) ==> forall i :: 0 <= i < n ==> !r.value.bools[i]
  {
    if !source.BoolArr? || |source.bools| != n then Err(TypeMismatch)
    else if !Any(source.bools) then Ok(BoolArr(Zeros(n)))
    else if !cutoff.Num? then Err(TypeMismatch)
    else Ok(BoolArr(WithinMask(n, near, cutoff.r, source.bools, exclusive)))
  }

  /** `exwithin` is `within` with the source bits cleared: contained in it, disjoint from
      the source, and, for a non-negative cutoff, different from it exactly on the source. */
  lemma ExwithinIsWithinLessSource(n: nat, near: (real, nat, nat) -> bool, c: real, source: seq<bool>, i: nat)
    requires |source| == n && i < n
    ensures WithinMask(n, near, c, source, true)[i] == (WithinMask(n, near, c, source, false)[i] && !source[i])
    ensures WithinMask(n, near, c, source, true)[i] ==> WithinMask(n, near, c, source, false)[i]
    ensures !(WithinMask(n, near, c, source, true)[i] && source[i])
    ensures SelfInclusive(near) && 0.0 <= c ==>
      (WithinMask(n, near, c, source, false)[i] && !WithinMask(n, near, c, source, true)[i] <==> source[i])
  {
    if SelfInclusive(near) && 0.0 <= c && source[i] {
      assert near(c, i, i);
    }
  }

  /** `np.where(source)[0]`: the selected indices in increasing order. */
  function TrueIndices(source: seq<bool>): (idx: seq<nat>)
    ensures forall k :: 0 <= k < |idx| ==> idx[k] < |source| && source[idx[k]]
    ensures forall k, l :: 0 <= k < l < |idx| ==> idx[k] < idx[l]
  {
    if source == [] then []
    else
      var last := |source| - 1;
      TrueIndices(source[..last]) + (if source[last] then [last] else [])
  }

  /** Each bound of the box is the coordinate of one of the first t listed atoms. */
  ghost predicate Attained(coords: seq<Point>, idx: seq<nat>, t: nat, lo: Point, hi: Point)
    requires t <= |idx| && forall k :: 0 <= k < |idx| ==> idx[k] < |coords|
  {
    && (exists k :: 0 <= k < t && coords[idx[k]].x == lo.x)
    && (exists k :: 0 <= k < t && coords[idx[k]].y == lo.y)
    && (exists k :: 0 <= k < t && coords[idx[k]].z == lo.z)
    && (exists k :: 0 <= k < t && coords[idx[k]].x == hi.x)
    && (exists k :: 0 <= k < t && coords[idx[k]].y == hi.y)
    && (exists k :: 0 <= k < t && coords[idx[k]].z == hi.z)
  }

  /** No selected atom is missing from the list. */
  lemma {:induction false} TrueIndicesComplete(source: seq<bool>, j: nat)
    requires j < |source| && source[j]
    ensures j in TrueIndices(source)
  {
    var last := |source| - 1;
    if j < last {
      TrueIndicesComplete(source[..last], j);
    }
  }

  /** The per-axis minimum and maximum of the source atoms' coordinates
      (`source_coor.min(axis=0)`, `source_coor.max(axis=0)`). */
  method BoundingBox(coords: seq<Point>, idx: seq<nat>) returns (lo: Point, hi: Point)
    requires |idx| > 0 && forall k :: 0 <= k < |idx| ==> idx[k] < |coords|
    ensures forall k :: 0 <= k < |idx| ==> InBox(coords[idx[k]], lo, hi)
    ensures Attained(coords, idx, |idx|, lo, hi)
  {
    lo, hi := coords[idx[0]], coords[idx[0]];
    var t := 1;
    while t < |idx|
      invariant 1 <= t <= |idx|
      invariant forall k :: 0 <= k < t ==> InBox(coords[idx[k]], lo, hi)
      invariant Attained(coords, idx, t, lo, hi)
    {
      var p := coords[idx[t]];
      lo := Point(if p.x < lo.x then p.x else lo.x, if p.y < lo.y then p.y else lo.y, if p.z < lo.z then p.z else lo.z);
      hi := Point(if p.x > hi.x then p.x else hi.x, if p.y > hi.y then p.y else hi.y, if p.z > hi.z then p.z else hi.z);
      t := t + 1;
    }
  }

  /** An atom outside the box grown by the cutoff is near no source atom inside the box. */
  lemma PruneIsSound(coords: seq<Point>, near: (real, nat, nat) -> bool, c: real, idx: seq<nat>, lo: Point, hi: Point, i: nat)
    requires NearImpliesClose(coords, near)
    requires i < |coords| && forall k :: 0 <= k < |idx| ==> idx[k] < |coords| && InBox(coords[idx[k]], lo, hi)
    requires !InBox(coords[i], Grow(lo, hi, c).0, Grow(lo, hi, c).1)
    ensures forall k :: 0 <= k < |idx| ==> !near(c, i, idx[k])
  {
  }

  /** Some listed source atom has atom i within cutoff c of it. */
  predicate NearListedAtom(near: (real, nat, nat) -> bool, c: real, idx: seq<nat>, i: nat) {
    exists k | 0 <= k < |idx| :: near(c, i, idx[k])
  }

  /** The compiled routine `within_distance`, which is handed the freshly zeroed mask.
      The loop is an illustrative implementation that skips atoms outside the bounding
      box grown by the cutoff; what is claimed of the routine is only the postcondition:
      exactly the atoms within the cutoff of some listed source atom are marked. */
  method WithinDistance(coords: seq<Point>, near: (real, nat, nat) -> bool, c: real, idx: seq<nat>, lo: Point, hi: Point, mask: array<bool>)
    requires mask.Length == |coords| && NearImpliesClose(coords, near)
    requires forall k :: 0 <= k < |idx| ==> idx[k] < |coords| && InBox(coords[idx[k]], lo, hi)
    requires forall i :: 0 <= i < mask.Length ==> !mask[i]
    modifies mask
    ensures forall i :: 0 <= i < mask.Length ==> mask[i] == NearListedAtom(near, c, idx, i)
  {
    var (glo, ghi) := Grow(lo, hi, c);
    var i := 0;
    while i < mask.Length
      invariant 0 <= i <= mask.Length
      invariant forall t :: 0 <= t < i ==> mask[t] == NearListedAtom(near, c, idx, t)
      invariant forall t :: i <= t < mask.Length ==> !mask[t]
    {
      if InBox(coords[i], glo, ghi) {
        var k := 0;
        var found := false;
        while k < |idx| && !found
          invariant 0 <= k <= |idx|
          invariant found <==> exists l :: 0 <= l < k && near(c, i, idx[l])
        {
          found := near(c, i, idx[k]);
          k := k + 1;
        }
        if found { mask[i] := true; }
      } else {
        PruneIsSound(coords, near, c, idx, lo, hi, i);
      }
      i := i + 1;
    }
  }

  /** Listing the selected indices loses no source atom: being near some listed index is
      being near some selected atom. */
  lemma NearListed(near: (real, nat, nat) -> bool, c: real, source: seq<bool>, idx: seq<nat>, i: nat)
    requires idx == TrueIndices(source)
    ensures (NearListedAtom(near, c, idx, i)) <==> NearSource(near, c, source, i)
  {
    if NearSource(near, c, source, i) {
      var j :| 0 <= j < |source| && source[j] && near(c, i, j);
      TrueIndicesComplete(source, j);
      var k :| 0 <= k < |idx| && idx[k] == j;
      assert near(c, i, idx[k]);
    }
  }

  /** `mask[source] = False`. */
  method ClearSource(mask: array<bool>, source: seq<bool>)
    requires |source| == mask.Length
    modifies mask
    ensures forall i :: 0 <= i < mask.Length ==> mask[i] == (old(mask[i]) && !source[i])
  {
    var i := 0;
    while i < mask.Length
      invariant 0 <= i <= mask.Length
      invariant forall t :: 0 <= t < i ==> mask[t] == (old(mask[t]) && !source[t])
      invariant forall t :: i <= t < mask.Length ==> mask[t] == old(mask[t])
    {
      if source[i] { mask[i] := false; }
      i := i + 1;
    }
  }

  /** Lines 185-196 for a non-empty source: the selected indices, their bounding box, and
      the distance routine filling the zeroed mask. */
  method MarkNear(coords: seq<Point>, near: (real, nat, nat) -> bool, c: real, src: seq<bool>, mask: array<bool>)
    requires NearImpliesClose(coords, near) && |src| == |coords| == mask.Length && Any(src)
    requires forall i :: 0 <= i < mask.Length ==> !mask[i]
    modifies mask
    ensures forall i :: 0 <= i < mask.Length ==> mask[i] == NearSource(near, c, src, i)
  {
    var idx := TrueIndices(src);
    var j0 :| 0 <= j0 < |src| && src[j0];
    TrueIndicesComplete(src, j0);
    var lo, hi := BoundingBox(coords, idx);
    WithinDistance(coords, near, c, idx, lo, hi, mask);
    forall i | 0 <= i < mask.Length
      ensures mask[i] == NearSource(near, c, src, i)
    {
      NearListed(near, c, src, idx, i);
    }
  }

  /** Lines 178-199: a zeroed mask, returned at once for an empty source; otherwise the
      source's bounding box, the distance routine filling the mask in place, and for
      `exwithin` the source bits cleared again. */
  method WithinSelect(coords: seq<Point>, near: (real, nat, nat) -> bool, exclusive: bool, cutoff: Value, source: Value)
    returns (r: Result<Value>)
    requires NearImpliesClose(coords, near)
    ensures r == Within(|coords|, near, exclusive, cutoff, source)
  {
    var n := |coords|;
    var mask := new bool[n](_ => false);
    if !source.BoolArr? || |source.bools| != n {
      return Err(TypeMismatch);
    }
    if !Any(source.bools) {
      assert mask[..] == Zeros(n);
      return Ok(BoolArr(mask[..]));
    }
    if !cutoff.Num? {
      return Err(TypeMismatch);
    }
    MarkNear(coords, near, cutoff.r, source.bools, mask);
    if exclusive {
      ClearSource(mask, source.bools);
    }
    assert mask[..] == WithinMask(n, near, cutoff.r, source.bools, exclusive);
    r := Ok(BoolArr(mask[..]));
  }
}
