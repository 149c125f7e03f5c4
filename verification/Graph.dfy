/** Reachability over a successor function, stated by paths. */
module Graph {
  import opened Bytes

  type Kappa = bytes

  type Successors = Kappa -> seq<Kappa>

  function Members(s: seq<Kappa>): (m: set<Kappa>)
    ensures forall k :: k in m <==> k in s
  {
    set k | k in s
  }

  ghost predicate IsPath(succ: Successors, p: seq<Kappa>) {
    p != [] && forall i :: 0 <= i < |p| - 1 ==> p[i + 1] in succ(p[i])
  }

  ghost predicate Reachable(succ: Successors, roots: set<Kappa>, k: Kappa) {
    exists p :: IsPath(succ, p) && p[0] in roots && p[|p| - 1] == k
  }

  ghost predicate Closed(succ: Successors, s: set<Kappa>) {
    forall k, c :: k in s && c in succ(k) ==> c in s
  }

  lemma RootReachable(succ: Successors, roots: set<Kappa>, k: Kappa)
    requires k in roots
    ensures Reachable(succ, roots, k)
  {
    assert IsPath(succ, [k]) && [k][0] in roots && [k][|[k]| - 1] == k;
  }

  lemma ExtendedPath(succ: Successors, q: seq<Kappa>, c: Kappa)
    requires q != []
    ensures IsPath(succ, q + [c]) <==> IsPath(succ, q) && c in succ(q[|q| - 1])
  {
    var p := q + [c];
    if IsPath(succ, p) {
      assert p[|q| - 1 + 1] in succ(p[|q| - 1]);
      forall i | 0 <= i < |q| - 1
        ensures q[i + 1] in succ(q[i])
      {
        assert p[i + 1] in succ(p[i]);
      }
    }
  }

  lemma StepReachable(succ: Successors, roots: set<Kappa>, k: Kappa, c: Kappa)
    requires Reachable(succ, roots, k) && c in succ(k)
    ensures Reachable(succ, roots, c)
  {
    var p :| IsPath(succ, p) && p[0] in roots && p[|p| - 1] == k;
    ExtendedPath(succ, p, c);
    var q := p + [c];
    assert q[0] in roots && q[|q| - 1] == c;
  }

  /** What is reachable from a successor is reachable. */
  lemma ViaSuccessor(succ: Successors, k: Kappa, c: Kappa, d: Kappa)
    requires c in succ(k) && Reachable(succ, {c}, d)
    ensures Reachable(succ, {k}, d)
  {
    var p :| IsPath(succ, p) && p[0] in {c} && p[|p| - 1] == d;
    var q := [k] + p;
    forall i | 0 <= i < |q| - 1
      ensures q[i + 1] in succ(q[i])
    {
      assert i > 0 ==> p[i - 1 + 1] in succ(p[i - 1]);
    }
    assert IsPath(succ, q) && q[0] in {k} && q[|q| - 1] == d;
  }

  lemma {:induction false} PathStaysInside(succ: Successors, s: set<Kappa>, p: seq<Kappa>)
    requires Closed(succ, s) && IsPath(succ, p) && p[0] in s
    ensures p[|p| - 1] in s
    decreases |p|
  {
    if |p| > 1 {
      var q := p[..|p| - 1];
      assert p == q + [p[|p| - 1]];
      ExtendedPath(succ, q, p[|p| - 1]);
      PathStaysInside(succ, s, q);
    }
  }

  /** Every closed set that holds the roots holds everything reachable: reachability is the least such set. */
  lemma ClosedHoldsReachable(succ: Successors, roots: set<Kappa>, s: set<Kappa>, k: Kappa)
    requires Closed(succ, s) && roots <= s && Reachable(succ, roots, k)
    ensures k in s
  {
    var p :| IsPath(succ, p) && p[0] in roots && p[|p| - 1] == k;
    PathStaysInside(succ, s, p);
  }

  /** A set is exactly what is reachable when it holds the roots, is closed, and holds nothing else. */
  lemma ExactlyReachable(succ: Successors, roots: set<Kappa>, s: set<Kappa>)
    requires roots <= s && Closed(succ, s)
    requires forall k :: k in s ==> Reachable(succ, roots, k)
    ensures forall k :: k in s <==> Reachable(succ, roots, k)
  {
    forall k | Reachable(succ, roots, k)
      ensures k in s
    {
      ClosedHoldsReachable(succ, roots, s, k);
    }
  }
}
