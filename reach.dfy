/**
 * The reference definition of what the mark phase computes: the sections
 * reachable from the root set along `Edge`, where each step must land on a
 * section that is alive and was not already visited before marking began
 * (`pre`). Pre-visited sections, such as non-SHF_ALLOC ones, are never
 * traversed, so nothing is kept alive through them.
 */
module Reachability {
  import opened LinkGraph

  ghost predicate IsPath(g: Graph, alive: seq<bool>, pre: seq<bool>, roots: set<nat>, p: seq<nat>)
    requires WellFormed(g) && |alive| == |g.sections| && |pre| == |g.sections|
  {
    && |p| > 0
    && p[0] in roots && p[0] < |g.sections|
    && forall i :: 0 < i < |p| ==> StepAt(g, alive, pre, p, i)
  }

  /** The `i`-th hop of path `p` follows an edge into an alive, fresh section. */
  ghost predicate StepAt(g: Graph, alive: seq<bool>, pre: seq<bool>, p: seq<nat>, i: nat)
    requires WellFormed(g) && |alive| == |g.sections| && |pre| == |g.sections|
    requires 0 < i < |p|
  {
    p[i] < |g.sections| && p[i - 1] < |g.sections| &&
    Edge(g, p[i - 1], p[i]) && alive[p[i]] && !pre[p[i]]
  }

  ghost predicate Reachable(g: Graph, alive: seq<bool>, pre: seq<bool>, roots: set<nat>, v: nat)
    requires WellFormed(g) && |alive| == |g.sections| && |pre| == |g.sections|
  {
    exists p :: IsPath(g, alive, pre, roots, p) && p[|p| - 1] == v
  }

  /** Fragment `f` is referenced by a reachable section. */
  ghost predicate ReachesFrag(g: Graph, alive: seq<bool>, pre: seq<bool>, roots: set<nat>, f: nat)
    requires WellFormed(g) && |alive| == |g.sections| && |pre| == |g.sections|
  {
    exists u: nat :: u < |g.sections| && Reachable(g, alive, pre, roots, u) && FragRef(g, u, f)
  }

  /** Every root (in range) is reachable. */
  lemma ReachableRoot(g: Graph, alive: seq<bool>, pre: seq<bool>, roots: set<nat>, r: nat)
    requires WellFormed(g) && |alive| == |g.sections| && |pre| == |g.sections|
    requires r in roots && r < |g.sections|
    ensures Reachable(g, alive, pre, roots, r)
  {
    assert IsPath(g, alive, pre, roots, [r]);
  }

  /** Reachability is closed under edges into alive, not pre-visited sections. */
  lemma ReachableStep(g: Graph, alive: seq<bool>, pre: seq<bool>, roots: set<nat>, u: nat, v: nat)
    requires WellFormed(g) && |alive| == |g.sections| && |pre| == |g.sections|
    requires u < |g.sections| && v < |g.sections|
    requires Reachable(g, alive, pre, roots, u)
    requires Edge(g, u, v) && alive[v] && !pre[v]
    ensures Reachable(g, alive, pre, roots, v)
  {
    var p :| IsPath(g, alive, pre, roots, p) && p[|p| - 1] == u;
    var q := p + [v];
    assert q[|q| - 1] == v;
    assert IsPath(g, alive, pre, roots, q) by {
      forall i | 0 < i < |q| ensures StepAt(g, alive, pre, q, i) {
        if i < |p| {
          assert StepAt(g, alive, pre, p, i);
          assert q[i] == p[i] && q[i - 1] == p[i - 1];
        }
      }
    }
  }

  /** Every reachable section is in range and is a root or alive and fresh. */
  lemma ReachableShape(g: Graph, alive: seq<bool>, pre: seq<bool>, roots: set<nat>, v: nat)
    requires WellFormed(g) && |alive| == |g.sections| && |pre| == |g.sections|
    requires Reachable(g, alive, pre, roots, v)
    ensures v < |g.sections| && (v in roots || (alive[v] && !pre[v]))
  {
    var p :| IsPath(g, alive, pre, roots, p) && p[|p| - 1] == v;
    if |p| > 1 {
      assert StepAt(g, alive, pre, p, |p| - 1);
    }
  }

  lemma {:induction false} PathInClosedSet(
    g: Graph, alive: seq<bool>, pre: seq<bool>, roots: set<nat>, s: set<nat>, p: seq<nat>)
    requires WellFormed(g) && |alive| == |g.sections| && |pre| == |g.sections|
    requires forall r :: r in roots && r < |g.sections| ==> r in s
    requires forall u: nat, v: nat ::
               (u in s && u < |g.sections| && v < |g.sections| &&
                Edge(g, u, v) && alive[v] && !pre[v]) ==> v in s
    requires IsPath(g, alive, pre, roots, p)
    ensures p[|p| - 1] in s
  {
    if |p| > 1 {
      var q := p[..|p| - 1];
      assert IsPath(g, alive, pre, roots, q) by {
        forall i | 0 < i < |q| ensures StepAt(g, alive, pre, q, i) {
          assert StepAt(g, alive, pre, p, i);
          assert q[i] == p[i] && q[i - 1] == p[i - 1];
        }
      }
      PathInClosedSet(g, alive, pre, roots, s, q);
      assert q[|q| - 1] == p[|p| - 2];
      assert StepAt(g, alive, pre, p, |p| - 1);
    }
  }

  /**
   * Reachability is the least such closure: any set holding the roots and
   * closed under the step of `ReachableStep` holds every reachable section.
   */
  lemma ReachableLeast(g: Graph, alive: seq<bool>, pre: seq<bool>, roots: set<nat>, s: set<nat>, v: nat)
    requires WellFormed(g) && |alive| == |g.sections| && |pre| == |g.sections|
    requires forall r :: r in roots && r < |g.sections| ==> r in s
    requires forall u: nat, w: nat ::
               (u in s && u < |g.sections| && w < |g.sections| &&
                Edge(g, u, w) && alive[w] && !pre[w]) ==> w in s
    requires Reachable(g, alive, pre, roots, v)
    ensures v in s
  {
    var p :| IsPath(g, alive, pre, roots, p) && p[|p| - 1] == v;
    PathInClosedSet(g, alive, pre, roots, s, p);
  }
}
