/** The group expander behind `same X as sel` (lines 163-176): every atom whose group
    value occurs among the selected atoms. */
module Groups {

  /** Some selected atom has the same group value as atom i. */
  ghost predicate SharesGroup<T>(g: seq<T>, sel: seq<bool>, i: nat)
    requires i < |g| == |sel|
  {
    exists j :: 0 <= j < |g| && sel[j] && g[j] == g[i]
  }

  /** `np.isin(g, np.unique(g[sel]))`: the set of group values of the selected atoms,
      then membership of every atom's value in it. */
  function SameAs<T(==)>(g: seq<T>, sel: seq<bool>): (r: seq<bool>)
    requires |sel| == |g|
    ensures |r| == |g|
    ensures forall i :: 0 <= i < |g| ==> (r[i] <==> SharesGroup(g, sel, i))
  {
    var selvals := set j | 0 <= j < |g| && sel[j] :: g[j];
    seq(|g|, i requires 0 <= i < |g| => g[i] in selvals)
  }

  /** The expansion contains the selection it started from. */
  lemma SameAsContains<T>(g: seq<T>, sel: seq<bool>, i: nat)
    requires |sel| == |g| && i < |g| && sel[i]
    ensures SameAs(g, sel)[i]
  {
    assert SharesGroup(g, sel, i) by { assert sel[i] && g[i] == g[i]; }
  }

  /** Expanding an empty selection selects nothing. */
  lemma SameAsEmpty<T>(g: seq<T>, sel: seq<bool>)
    requires |sel| == |g| && forall j :: 0 <= j < |sel| ==> !sel[j]
    ensures forall i :: 0 <= i < |g| ==> !SameAs(g, sel)[i]
  {
  }

  /** Expanding twice is expanding once: `same X as same X as S` is `same X as S`. */
  lemma SameAsIdempotent<T>(g: seq<T>, sel: seq<bool>)
    requires |sel| == |g|
    ensures SameAs(g, SameAs(g, sel)) == SameAs(g, sel)
  {
    var once := SameAs(g, sel);
    var twice := SameAs(g, once);
    forall i | 0 <= i < |g|
      ensures twice[i] == once[i]
    {
      if twice[i] {
        var j :| 0 <= j < |g| && once[j] && g[j] == g[i];
        var k :| 0 <= k < |g| && sel[k] && g[k] == g[j];
        assert sel[k] && g[k] == g[i];
      }
      if once[i] {
        SameAsContains(g, once, i);
      }
    }
  }
}
