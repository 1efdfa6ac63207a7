/** The numbers from lo up to hi as a set, and counting by inclusion. */
module Ranges {

  function Between(lo: nat, hi: nat): (r: set<nat>)
    ensures forall x: nat :: x in r <==> lo <= x < hi
    ensures |r| == if lo < hi then hi - lo else 0
    decreases hi - lo
  {
    if lo < hi then {lo} + Between(lo + 1, hi) else {}
  }

  lemma {:induction false} SubsetCount(a: set<nat>, b: set<nat>)
    requires a <= b
    ensures |a| <= |b| && (|a| == |b| ==> a == b)
    decreases a
  {
    if a != {} {
      var x :| x in a;
      SubsetCount(a - {x}, b - {x});
    }
  }

  /** A set of numbers below n that misses 0 and k has at most n - 2 of them. */
  lemma Few(s: set<nat>, k: nat, n: nat)
    requires (forall j | j in s :: 0 < j < n) && k !in s && 0 < k < n
    ensures |s| + 2 <= n
  {
    SubsetCount(s + {k}, Between(1, n));
  }

  lemma OneMore(g: set<nat>, k: nat)
    requires k !in g
    ensures |g + {k} - {0}| == |g - {0}| + if k == 0 then 0 else 1
  {
    assert g + {k} - {0} == if k == 0 then g - {0} else (g - {0}) + {k};
  }
}
