/** The value matcher behind `molprop_int_eq` / `molprop_str_eq`: literal equality, the
    `.*` wildcard pattern, and membership in a literal list. */
module Matching {
  import opened Errors
  import opened Values

  /** `p` contains the wildcard marker ".*". */
  predicate HasWildcard(p: string) {
    exists i | 0 <= i < |p| - 1 :: p[i] == '.' && p[i + 1] == '*'
  }

  /** The literal pieces of `p` between its occurrences of ".*", scanned left to right. */
  function Segments(p: string): (segs: seq<string>)
    ensures |segs| >= 1
  {
    if |p| < 2 then [p]
    else if p[0] == '.' && p[1] == '*' then [""] + Segments(p[2..])
    else
      var rest := Segments(p[1..]);
      [[p[0]] + rest[0]] + rest[1..]
  }

  /** The pieces glued back together with the marker between them. */
  function JoinSegments(segs: seq<string>): string
    requires |segs| >= 1
  {
    if |segs| == 1 then segs[0] else segs[0] + ".*" + JoinSegments(segs[1..])
  }

  /** Splitting a pattern on the marker loses nothing. */
  lemma {:induction false} SegmentsJoin(p: string)
    ensures JoinSegments(Segments(p)) == p
  {
    if |p| < 2 {
    } else if p[0] == '.' && p[1] == '*' {
      SegmentsJoin(p[2..]);
      assert p == ".*" + p[2..];
    } else {
      SegmentsJoin(p[1..]);
      var rest := Segments(p[1..]);
      if |rest| == 1 {
        assert p == [p[0]] + p[1..];
      } else {
        assert JoinSegments(rest) == rest[0] + ".*" + JoinSegments(rest[1..]);
        assert ([[p[0]] + rest[0]] + rest[1..])[1..] == rest[1..];
        assert p == [p[0]] + p[1..];
      }
    }
  }

  /** What `.*` consumes: `.` matches any character but a line break. */
  predicate NoLineBreak(s: string) {
    forall t | 0 <= t < |s| :: s[t] != '\n'
  }

  /** `s` matches the start-anchored pattern made of `segs`: it begins with the first
      piece, and each later piece follows after a stretch without line breaks. Nothing is
      required after the last piece, as with Python's `re.match`. */
  predicate MatchFrom(segs: seq<string>, s: string)
    requires |segs| >= 1
    decreases |segs|
  {
    && segs[0] <= s
    && (|segs| == 1 ||
        exists k | |segs[0]| <= k <= |s| :: NoLineBreak(s[|segs[0]|..k]) && MatchFrom(segs[1..], s[k..]))
  }

  /** `re.match(p, s)` for a pattern whose only metacharacters are `.*` pairs. */
  predicate PatternMatch(p: string, s: string) {
    MatchFrom(Segments(p), s)
  }

  lemma {:induction false} SegmentsOfPrefixPattern(p: string)
    requires !HasWildcard(p)
    ensures Segments(p + ".*") == [p, ""]
    decreases |p|
  {
    var q := p + ".*";
    if |p| == 0 {
      assert q == ".*";
      assert q[2..] == "";
    } else {
      assert !(q[0] == '.' && q[1] == '*') by {
        if |p| >= 2 { assert p[0] == q[0] && p[1] == q[1]; }
      }
      assert !HasWildcard(p[1..]);
      SegmentsOfPrefixPattern(p[1..]);
      assert q[1..] == p[1..] + ".*";
      assert [p[0]] + p[1..] == p;
    }
  }

  /** A pattern `P.*` with a literal `P` selects exactly the strings beginning with `P`. */
  lemma PrefixPatternMatch(p: string, s: string)
    requires !HasWildcard(p)
    ensures PatternMatch(p + ".*", s) <==> p <= s
  {
    SegmentsOfPrefixPattern(p);
    var segs := [p, ""];
    if p <= s {
      assert s[|p|..|p|] == "";
      assert NoLineBreak(s[|p|..|p|]);
      assert MatchFrom(segs[1..], s[|p|..]);
    }
  }

  /** `name "C.*"` selects exactly the names that start with "C". */
  lemma NameStartsWithC(s: string)
    ensures PatternMatch("C.*", s) <==> |s| > 0 && s[0] == 'C'
  {
    assert !HasWildcard("C");
    assert "C" + ".*" == "C.*";
    PrefixPatternMatch("C", s);
    if |s| > 0 && s[0] == 'C' { assert s[..1] == "C"; }
  }

  /** The matcher `fn` of lines 62-79. A list comparand always takes `np.isin`: the
      guard `not isinstance(y, str)` of line 69 holds for every list. */
  function MatchValue(x: Value, y: Value): (r: Result<seq<bool>>)
    requires x.IsProperty()
    ensures r.Ok? ==> |r.value| == x.Length()
    ensures y.List? ==> r.Ok? && forall i :: 0 <= i < x.Length() ==> (r.value[i] <==> x.Cells()[i] in y.items)
    ensures (y.Num? || (y.Str? && !HasWildcard(y.s))) ==>
      r.Ok? && forall i :: 0 <= i < x.Length() ==> (r.value[i] <==> x.Cells()[i] == AsScalar(y))
    ensures y.Str? && HasWildcard(y.s) ==>
      (r.Ok? <==> x.StrArr?) &&
      (r.Ok? ==> forall i :: 0 <= i < x.Length() ==> (r.value[i] <==> PatternMatch(y.s, x.strs[i])))
    ensures r.Err? ==> r.error == TypeMismatch
    ensures !(y.List? || y.Num? || y.Str?) ==> r.Err?
  {
    var cells := x.Cells();
    if y.List? then
      Ok(seq(|cells|, i requires 0 <= i < |cells| => cells[i] in y.items))
    else if y.Str? && HasWildcard(y.s) then
      if x.StrArr? then Ok(seq(|x.strs|, i requires 0 <= i < |x.strs| => PatternMatch(y.s, x.strs[i])))
      else Err(TypeMismatch)
    else if y.Num? || y.Str? then
      Ok(seq(|cells|, i requires 0 <= i < |cells| => cells[i] == AsScalar(y)))
    else
      Err(TypeMismatch)
  }

  /** A list member is compared literally even when it contains the marker: the list
      ["C.*"] selects only atoms whose value is the three characters "C.*". */
  lemma ListWildcardIsLiteral(x: Value, i: nat)
    requires x.StrArr? && i < |x.strs|
    ensures MatchValue(x, List([S("C.*")])).Ok?
    ensures MatchValue(x, List([S("C.*")])).value[i] <==> x.strs[i] == "C.*"
  {
    assert x.Cells()[i] == S(x.strs[i]);
  }

  /** `resname ACE NME` selects exactly the atoms whose resname is "ACE" or "NME". */
  lemma ResnameListMatch(x: Value, i: nat)
    requires x.StrArr? && i < |x.strs|
    ensures MatchValue(x, List([S("ACE"), S("NME")])).Ok?
    ensures MatchValue(x, List([S("ACE"), S("NME")])).value[i] <==> (x.strs[i] == "ACE" || x.strs[i] == "NME")
  {
    assert x.Cells()[i] == S(x.strs[i]);
  }

  /** One entry of the unreachable branch at lines 75-78. */
  function PairEntry(xx: string, yy: string): bool {
    if HasWildcard(yy) then PatternMatch(yy, xx) else xx == yy
  }

  /** The entries the unreachable branch would produce for one atom value. */
  function PairRow(xx: string, ys: seq<string>): (row: seq<bool>)
    ensures |row| == |ys|
  {
    seq(|ys|, k requires 0 <= k < |ys| => PairEntry(xx, ys[k]))
  }

  /** All entries of the unreachable branch, atom by atom. */
  function PairRows(xs: seq<string>, ys: seq<string>): seq<bool>
  {
    if xs == [] then [] else PairRows(xs[..|xs| - 1], ys) + PairRow(xs[|xs| - 1], ys)
  }

  /** The unreachable branch yields |xs| * |ys| entries, not one per atom. */
  lemma {:induction false} PairRowsLength(xs: seq<string>, ys: seq<string>)
    ensures |PairRows(xs, ys)| == |xs| * |ys|
  {
    if xs != [] {
      PairRowsLength(xs[..|xs| - 1], ys);
      assert (|xs| - 1) * |ys| + |ys| == |xs| * |ys|;
    }
  }

  lemma RowStart(i: nat, n: nat, m: nat, k: nat)
    requires i < n && k < m
    ensures i * m + k < n * m
  {
    assert i * m + k < (i + 1) * m;
    assert (i + 1) * m <= n * m;
  }

  /** Entry i * |ys| + k of the unreachable branch compares atom i with member k. */
  lemma {:induction false} PairRowsAt(xs: seq<string>, ys: seq<string>, i: nat, k: nat)
    requires i < |xs| && k < |ys|
    ensures i * |ys| + k < |PairRows(xs, ys)|
    ensures PairRows(xs, ys)[i * |ys| + k] == PairEntry(xs[i], ys[k])
  {
    var init := xs[..|xs| - 1];
    PairRowsLength(init, ys);
    PairRowsLength(xs, ys);
    RowStart(i, |xs|, |ys|, k);
    if i < |xs| - 1 {
      PairRowsAt(init, ys, i, k);
      RowStart(i, |init|, |ys|, k);
      assert init[i] == xs[i];
    } else {
      assert i * |ys| + k == |PairRows(init, ys)| + k;
    }
  }

  /** Lines 72-79 as written: nested loops that append one entry per (atom, member) pair. */
  method PairwiseMatch(xs: seq<string>, ys: seq<string>) returns (res: seq<bool>)
    ensures res == PairRows(xs, ys)
  {
    res := [];
    var i := 0;
    while i < |xs|
      invariant 0 <= i <= |xs|
      invariant res == PairRows(xs[..i], ys)
    {
      var k := 0;
      while k < |ys|
        invariant 0 <= k <= |ys|
        invariant res == PairRows(xs[..i], ys) + PairRow(xs[i], ys)[..k]
      {
        if HasWildcard(ys[k]) {
          res := res + [PatternMatch(ys[k], xs[i])];
        } else {
          res := res + [xs[i] == ys[k]];
        }
        k := k + 1;
      }
      assert xs[..i + 1][..i] == xs[..i];
      i := i + 1;
    }
    assert xs[..|xs|] == xs;
  }
}
