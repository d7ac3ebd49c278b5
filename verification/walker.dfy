/**
 * The outer loop of `replaceAll`, independent of what a visit does: each
 * element is visited once, in order, and the visits that report a
 * replacement are counted.
 */
module Walker {

  /** The visits of `xs` in order, with the number that report a replacement. */
  function Fold<T>(xs: seq<T>, visit: T -> (T, bool)): (r: (seq<T>, nat))
    ensures |r.0| == |xs| && r.1 <= |xs|
  {
    if |xs| == 0 then ([], 0)
    else
      var prefix := Fold(xs[..|xs| - 1], visit);
      var v := visit(xs[|xs| - 1]);
      (prefix.0 + [v.0], prefix.1 + if v.1 then 1 else 0)
  }

  /**
   * Position `i` of the fold is the visit of element `i`; the count is zero
   * exactly when no visit reports a replacement, and the full length exactly
   * when all do.
   */
  lemma {:induction false} FoldElementwise<T>(xs: seq<T>, visit: T -> (T, bool))
    ensures forall i :: 0 <= i < |xs| ==> Fold(xs, visit).0[i] == visit(xs[i]).0
    ensures Fold(xs, visit).1 == 0 <==> forall i :: 0 <= i < |xs| ==> !visit(xs[i]).1
    ensures Fold(xs, visit).1 == |xs| <==> forall i :: 0 <= i < |xs| ==> visit(xs[i]).1
  {
    if |xs| > 0 {
      var prefix := xs[..|xs| - 1];
      FoldElementwise(prefix, visit);
      assert forall i :: 0 <= i < |prefix| ==> prefix[i] == xs[i];
    }
  }

  /** The count is the number of positions whose visit reports a replacement. */
  lemma {:induction false} FoldCount<T>(xs: seq<T>, visit: T -> (T, bool))
    ensures Fold(xs, visit).1 == |set i | 0 <= i < |xs| && visit(xs[i]).1|
  {
    if |xs| > 0 {
      var prefix := xs[..|xs| - 1];
      FoldCount(prefix, visit);
      assert forall i :: 0 <= i < |prefix| ==> prefix[i] == xs[i];
      var before := set i | 0 <= i < |prefix| && visit(prefix[i]).1;
      var after := set i | 0 <= i < |xs| && visit(xs[i]).1;
      if visit(xs[|xs| - 1]).1 {
        assert after == before + {|xs| - 1};
      } else {
        assert after == before;
      }
    }
  }

  /** The count of the fold is the size of any set holding exactly the flagged positions. */
  lemma FoldCountIs<T>(xs: seq<T>, visit: T -> (T, bool), flagged: set<int>)
    requires forall i :: i in flagged <==> 0 <= i < |xs| && visit(xs[i]).1
    ensures Fold(xs, visit).1 == |flagged|
  {
    FoldCount(xs, visit);
    assert flagged == set i | 0 <= i < |xs| && visit(xs[i]).1;
  }

  /** The loop itself: visits the elements in order and counts the replacements. */
  method VisitAll<T>(xs: seq<T>, visit: T -> (T, bool)) returns (out: seq<T>, count: nat)
    ensures (out, count) == Fold(xs, visit)
  {
    out, count := [], 0;
    var k := 0;
    while k < |xs|
      invariant k <= |xs|
      invariant (out, count) == Fold(xs[..k], visit)
    {
      var r := visit(xs[k]);
      out := out + [r.0];
      if r.1 {
        count := count + 1;
      }
      assert xs[..k + 1][..k] == xs[..k];
      k := k + 1;
    }
    assert xs[..k] == xs;
  }
}
