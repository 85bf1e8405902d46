/**
 * Invariants of the mark phase, stated over snapshots of the flags, and the
 * lemmas that carry them across each step of `visit`: setting a fragment
 * alive, marking a section and handing it to the feeder, or marking it and
 * visiting it inline.
 */
module MarkProof {
  import opened LinkGraph
  import opened Reachability

  /**
   * `t` is the set of sections whose `visit` has finished; `w` is the feeder
   * (sections marked but not yet visited). Everything in either is visited
   * and reachable; every finished section is closed; the feeder has no
   * duplicates and is disjoint from `t`.
   */
  ghost predicate MarkInvariant(g: Graph, st: Flags, pre: seq<bool>, roots: set<nat>, t: set<nat>, w: seq<nat>) {
    && WellFormed(g) && FlagsFit(g, st) && |pre| == |g.sections|
    && (forall i :: 0 <= i < |pre| && pre[i] ==> st.visited[i])
    && (forall u :: u in t ==>
          u < |g.sections| && st.visited[u] && Reachable(g, st.alive, pre, roots, u) && Closed(g, st, u))
    && (forall i :: 0 <= i < |w| ==>
          w[i] < |g.sections| && st.visited[w[i]] && w[i] !in t && Reachable(g, st.alive, pre, roots, w[i]))
    && (forall i, j :: 0 <= i < j < |w| ==> w[i] != w[j])
  }

  /**
   * What one call of `visit(x)` may do, from state (s0, t0, w0) to (s1, t1, w1):
   * flags only grow; sections it finishes are `x` or were unvisited at the
   * start; it only appends to the feeder, and only sections unvisited at the
   * start; every section it marks ends up finished or in the feeder; every
   * fragment it sets alive is referenced by `x` or a section it finished.
   */
  ghost predicate Progress(
    g: Graph, s0: Flags, t0: set<nat>, w0: seq<nat>, s1: Flags, t1: set<nat>, w1: seq<nat>, x: nat)
    requires WellFormed(g)
  {
    && Grown(g, s0, s1)
    && t0 <= t1
    && |w0| <= |w1| && w1[..|w0|] == w0
    && (forall u :: u in t1 && u !in t0 ==> u == x || (u < |g.sections| && !s0.visited[u]))
    && (forall i :: |w0| <= i < |w1| ==> w1[i] < |g.sections| && !s0.visited[w1[i]])
    && (forall v :: 0 <= v < |s1.visited| && s1.visited[v] && !s0.visited[v] ==> v in t1 || v in w1)
    && (forall f :: 0 <= f < |s1.frags| && s1.frags[f] && !s0.frags[f] ==>
          exists u :: (u in t1 || u == x) && u < |g.sections| && FragRef(g, u, f))
  }

  /** How much of `visit(u)` is done: the first `nFrags` fragments, the first
      `nFdes` FDEs (and relocations 1..`nEh` of the next one), the first
      `nRels` ordinary relocations. */
  ghost predicate VisitDone(g: Graph, st: Flags, u: nat, nFrags: nat, nFdes: nat, nEh: nat, nRels: nat)
    requires WellFormed(g) && FlagsFit(g, st) && u < |g.sections|
  {
    var s := g.sections[u];
    assert SectionOk(g, u);
    && nFrags <= |s.relFragments| && nFdes <= |s.fdes| && nRels <= |s.rels|
    && (forall i :: 0 <= i < nFrags ==> st.frags[s.relFragments[i]])
    && (forall d :: 0 <= d < nFdes ==> FdeDone(g, st, s.fdes[d]))
    && (nFdes < |s.fdes| ==>
          nEh <= |s.fdes[nFdes].rels| &&
          forall j :: 1 <= j < nEh ==> EhDone(g, st, EhTarget(g, s.fdes[nFdes].rels[j])))
    && (forall k :: 0 <= k < nRels ==> RelDone(g, st, RelTarget(g, u, k)))
  }

  lemma VisitDoneGrown(g: Graph, a: Flags, b: Flags, u: nat, nFrags: nat, nFdes: nat, nEh: nat, nRels: nat)
    requires WellFormed(g) && Grown(g, a, b) && u < |g.sections|
    requires VisitDone(g, a, u, nFrags, nFdes, nEh, nRels)
    ensures VisitDone(g, b, u, nFrags, nFdes, nEh, nRels)
  {
    var s := g.sections[u];
    assert SectionOk(g, u);
    forall d | 0 <= d < nFdes ensures FdeDone(g, b, s.fdes[d]) {
      assert FdeDone(g, a, s.fdes[d]);
    }
    if nFdes < |s.fdes| {
      forall j | 1 <= j < nEh ensures EhDone(g, b, EhTarget(g, s.fdes[nFdes].rels[j])) {
        assert EhDone(g, a, EhTarget(g, s.fdes[nFdes].rels[j]));
      }
    }
    forall k | 0 <= k < nRels ensures RelDone(g, b, RelTarget(g, u, k)) {
      assert RelDone(g, a, RelTarget(g, u, k));
    }
  }

  lemma VisitDoneNextEh(g: Graph, st: Flags, u: nat, nFrags: nat, d: nat, j: nat)
    requires WellFormed(g) && FlagsFit(g, st) && u < |g.sections|
    requires d < |g.sections[u].fdes| && 1 <= j < |g.sections[u].fdes[d].rels|
    requires VisitDone(g, st, u, nFrags, d, j, 0)
    requires SectionOk(g, u) && EhDone(g, st, EhTarget(g, g.sections[u].fdes[d].rels[j]))
    ensures VisitDone(g, st, u, nFrags, d, j + 1, 0)
  {
  }

  lemma VisitDoneNextFde(g: Graph, st: Flags, u: nat, nFrags: nat, d: nat)
    requires WellFormed(g) && FlagsFit(g, st) && u < |g.sections|
    requires d < |g.sections[u].fdes|
    requires VisitDone(g, st, u, nFrags, d, |g.sections[u].fdes[d].rels|, 0)
    ensures VisitDone(g, st, u, nFrags, d + 1, 0, 0)
  {
    var s := g.sections[u];
    assert SectionOk(g, u);
    assert FdeDone(g, st, s.fdes[d]);
  }

  lemma VisitDoneNextFrag(g: Graph, st: Flags, u: nat, i: nat)
    requires WellFormed(g) && FlagsFit(g, st) && u < |g.sections|
    requires i < |g.sections[u].relFragments|
    requires VisitDone(g, st, u, i, 0, 0, 0)
    requires SectionOk(g, u) && st.frags[g.sections[u].relFragments[i]]
    ensures VisitDone(g, st, u, i + 1, 0, 0, 0)
  {
  }

  lemma VisitDoneNextRel(g: Graph, st: Flags, u: nat, k: nat)
    requires WellFormed(g) && FlagsFit(g, st) && u < |g.sections|
    requires k < |g.sections[u].rels|
    requires VisitDone(g, st, u, |g.sections[u].relFragments|, |g.sections[u].fdes|, 0, k)
    requires RelDone(g, st, RelTarget(g, u, k))
    ensures VisitDone(g, st, u, |g.sections[u].relFragments|, |g.sections[u].fdes|, 0, k + 1)
  {
  }

  lemma VisitDoneClosed(g: Graph, st: Flags, u: nat)
    requires WellFormed(g) && FlagsFit(g, st) && u < |g.sections|
    requires VisitDone(g, st, u, |g.sections[u].relFragments|, |g.sections[u].fdes|, 0, |g.sections[u].rels|)
    ensures Closed(g, st, u)
  {
  }

  lemma InvariantGrown(g: Graph, a: Flags, b: Flags, pre: seq<bool>, roots: set<nat>, t: set<nat>, w: seq<nat>)
    requires MarkInvariant(g, a, pre, roots, t, w) && Grown(g, a, b)
    ensures MarkInvariant(g, b, pre, roots, t, w)
  {
    forall u | u in t ensures Closed(g, b, u) {
      ClosedGrown(g, a, b, u);
    }
  }

  lemma ProgressStart(g: Graph, s: Flags, t: set<nat>, w: seq<nat>, x: nat)
    requires WellFormed(g) && FlagsFit(g, s)
    ensures Progress(g, s, t, w, s, t, w, x)
  {
    assert w[..|w|] == w;
  }

  /** Setting alive a fragment that `x` refers to. */
  lemma FragStep(
    g: Graph, s0: Flags, t0: set<nat>, w0: seq<nat>, s: Flags, t: set<nat>, w: seq<nat>,
    pre: seq<bool>, roots: set<nat>, x: nat, f: nat)
    requires MarkInvariant(g, s, pre, roots, t, w) && Progress(g, s0, t0, w0, s, t, w, x)
    requires x < |g.sections| && FragRef(g, x, f) && f < |g.fragments|
    ensures var s' := s.(frags := s.frags[f := true]);
      && Grown(g, s, s')
      && MarkInvariant(g, s', pre, roots, t, w)
      && Progress(g, s0, t0, w0, s', t, w, x)
  {
    var s' := s.(frags := s.frags[f := true]);
    InvariantGrown(g, s, s', pre, roots, t, w);
    forall h | 0 <= h < |s'.frags| && s'.frags[h] && !s0.frags[h]
      ensures exists u :: (u in t || u == x) && u < |g.sections| && FragRef(g, u, h)
    {
      if h != f {
        assert s.frags[h];
      }
    }
  }

  /** Marking an unvisited section `y` keeps the invariant, and `y` is new to both `t` and `w`. */
  lemma MarkStep(g: Graph, s: Flags, pre: seq<bool>, roots: set<nat>, t: set<nat>, w: seq<nat>, y: nat)
    requires MarkInvariant(g, s, pre, roots, t, w) && y < |g.sections| && !s.visited[y]
    ensures var s' := s.(visited := s.visited[y := true]);
      && Grown(g, s, s')
      && MarkInvariant(g, s', pre, roots, t, w)
      && y !in t && y !in w && !pre[y]
  {
    var s' := s.(visited := s.visited[y := true]);
    InvariantGrown(g, s, s', pre, roots, t, w);
  }

  /**
   * Marking `y`, reached from `x` along an edge, and handing it to the
   * feeder keeps the invariant and is a step `visit(x)` may take.
   */
  lemma PushStep(
    g: Graph, s0: Flags, t0: set<nat>, w0: seq<nat>, s: Flags, t: set<nat>, w: seq<nat>,
    pre: seq<bool>, roots: set<nat>, x: nat, y: nat)
    requires MarkInvariant(g, s, pre, roots, t, w) && Progress(g, s0, t0, w0, s, t, w, x)
    requires x < |g.sections| && Reachable(g, s.alive, pre, roots, x)
    requires y < |g.sections| && Edge(g, x, y) && s.alive[y] && !s.visited[y]
    ensures var s' := s.(visited := s.visited[y := true]);
      && MarkInvariant(g, s', pre, roots, t, w + [y])
      && Progress(g, s0, t0, w0, s', t, w + [y], x)
  {
    var s' := s.(visited := s.visited[y := true]);
    MarkStep(g, s, pre, roots, t, w, y);
    ReachableStep(g, s.alive, pre, roots, x, y);
    var w' := w + [y];
    assert w'[..|w0|] == w0 by {
      assert w'[..|w|] == w;
    }
    forall i | |w0| <= i < |w'| ensures w'[i] < |g.sections| && !s0.visited[w'[i]] {
      if i < |w| {
        assert w'[i] == w[i];
      }
    }
    forall v | 0 <= v < |s'.visited| && s'.visited[v] && !s0.visited[v] ensures v in t || v in w' {
      if v != y {
        assert v in t || v in w;
      } else {
        assert w'[|w|] == y;
      }
    }
    forall i | 0 <= i < |w'|
      ensures w'[i] < |g.sections| && s'.visited[w'[i]] && w'[i] !in t &&
        Reachable(g, s'.alive, pre, roots, w'[i])
    {
      if i < |w| {
        assert w'[i] == w[i];
      }
    }
    forall i, j | 0 <= i < j < |w'| ensures w'[i] != w'[j] {
      if j < |w| {
        assert w'[i] == w[i] && w'[j] == w[j];
      } else {
        assert w'[i] == w[i] && w'[j] == y;
      }
    }
  }

  /**
   * `visit(x)` marks `y` and visits it inline: the inner call's steps,
   * after the mark, compose with the outer ones.
   */
  lemma InlineStep(
    g: Graph, s0: Flags, t0: set<nat>, w0: seq<nat>, s: Flags, t: set<nat>, w: seq<nat>,
    s1: Flags, t1: set<nat>, w1: seq<nat>, x: nat, y: nat)
    requires WellFormed(g) && Progress(g, s0, t0, w0, s, t, w, x)
    requires y < |g.sections| && !s.visited[y]
    requires Progress(g, s.(visited := s.visited[y := true]), t, w, s1, t1, w1, y)
    requires y in t1
    ensures Progress(g, s0, t0, w0, s1, t1, w1, x)
  {
    var s' := s.(visited := s.visited[y := true]);
    assert Grown(g, s, s');
    assert w1[..|w0|] == w0 by {
      assert w1[..|w|] == w;
      assert w1[..|w|][..|w0|] == w1[..|w0|];
    }
    forall i | |w0| <= i < |w1| ensures w1[i] < |g.sections| && !s0.visited[w1[i]] {
      if i < |w| {
        assert w1[i] == w1[..|w|][i] == w[i];
      }
    }
    forall v | 0 <= v < |s1.visited| && s1.visited[v] && !s0.visited[v] ensures v in t1 || v in w1 {
      if v != y && s.visited[v] {
        assert v in t || v in w;
        if v in w {
          var i :| 0 <= i < |w| && w[i] == v;
          assert w1[..|w|][i] == v;
        }
      }
    }
    forall f | 0 <= f < |s1.frags| && s1.frags[f] && !s0.frags[f]
      ensures exists u :: (u in t1 || u == x) && u < |g.sections| && FragRef(g, u, f)
    {
      if s.frags[f] {
        var u :| (u in t || u == x) && u < |g.sections| && FragRef(g, u, f);
      } else {
        var u :| (u in t1 || u == y) && u < |g.sections| && FragRef(g, u, f);
      }
    }
  }

  /**
   * The state between two steps of `visit(x)` that started at (s0, t0, w0):
   * the mark invariant holds, the steps so far are ones `visit(x)` may take,
   * and `x` itself is visited, reachable, and neither finished nor fed.
   */
  ghost predicate VisitState(
    g: Graph, st: Flags, t: set<nat>, w: seq<nat>, pre: seq<bool>, roots: set<nat>,
    x: nat, s0: Flags, t0: set<nat>, w0: seq<nat>)
  {
    && MarkInvariant(g, st, pre, roots, t, w)
    && Progress(g, s0, t0, w0, st, t, w, x)
    && x < |g.sections| && st.visited[x] && x !in t && x !in w
    && Reachable(g, st.alive, pre, roots, x)
  }

  lemma FragStepV(
    g: Graph, st: Flags, t: set<nat>, w: seq<nat>, pre: seq<bool>, roots: set<nat>,
    x: nat, s0: Flags, t0: set<nat>, w0: seq<nat>, f: nat)
    requires VisitState(g, st, t, w, pre, roots, x, s0, t0, w0)
    requires FragRef(g, x, f) && f < |g.fragments|
    ensures var st' := st.(frags := st.frags[f := true]);
      Grown(g, st, st') && VisitState(g, st', t, w, pre, roots, x, s0, t0, w0)
  {
    FragStep(g, s0, t0, w0, st, t, w, pre, roots, x, f);
  }

  lemma PushStepV(
    g: Graph, st: Flags, t: set<nat>, w: seq<nat>, pre: seq<bool>, roots: set<nat>,
    x: nat, s0: Flags, t0: set<nat>, w0: seq<nat>, y: nat)
    requires VisitState(g, st, t, w, pre, roots, x, s0, t0, w0)
    requires y < |g.sections| && Edge(g, x, y) && st.alive[y] && !st.visited[y]
    ensures var st' := st.(visited := st.visited[y := true]);
      Grown(g, st, st') && VisitState(g, st', t, w + [y], pre, roots, x, s0, t0, w0)
  {
    PushStep(g, s0, t0, w0, st, t, w, pre, roots, x, y);
    var w' := w + [y];
    forall i | 0 <= i < |w'| ensures w'[i] != x {
      if i < |w| {
        assert w'[i] == w[i];
      }
    }
  }

  /** Before visiting `y` inline: the inner call's precondition. */
  lemma InlineEnterV(
    g: Graph, st: Flags, t: set<nat>, w: seq<nat>, pre: seq<bool>, roots: set<nat>,
    x: nat, s0: Flags, t0: set<nat>, w0: seq<nat>, y: nat)
    requires VisitState(g, st, t, w, pre, roots, x, s0, t0, w0)
    requires y < |g.sections| && Edge(g, x, y) && st.alive[y] && !st.visited[y]
    ensures var st' := st.(visited := st.visited[y := true]);
      && Grown(g, st, st')
      && MarkInvariant(g, st', pre, roots, t, w)
      && y !in t && y !in w && Reachable(g, st'.alive, pre, roots, y)
  {
    MarkStep(g, st, pre, roots, t, w, y);
    ReachableStep(g, st.alive, pre, roots, x, y);
  }

  /** After visiting `y` inline: back in `visit(x)`. */
  lemma InlineExitV(
    g: Graph, st: Flags, t: set<nat>, w: seq<nat>, pre: seq<bool>, roots: set<nat>,
    x: nat, s0: Flags, t0: set<nat>, w0: seq<nat>, y: nat,
    s1: Flags, t1: set<nat>, w1: seq<nat>)
    requires VisitState(g, st, t, w, pre, roots, x, s0, t0, w0)
    requires y < |g.sections| && !st.visited[y]
    requires MarkInvariant(g, s1, pre, roots, t1, w1)
    requires Progress(g, st.(visited := st.visited[y := true]), t, w, s1, t1, w1, y)
    requires y in t1
    ensures Grown(g, st, s1) && VisitState(g, s1, t1, w1, pre, roots, x, s0, t0, w0)
  {
    InlineStep(g, s0, t0, w0, st, t, w, s1, t1, w1, x, y);
    var st' := st.(visited := st.visited[y := true]);
    assert Grown(g, st, st');
    forall i | 0 <= i < |w1| ensures w1[i] != x {
      if i < |w| {
        assert w1[i] == w1[..|w|][i];
      }
    }
  }

  /** Finishing `visit(x)` from the step state. */
  lemma FinishStepV(
    g: Graph, st: Flags, t: set<nat>, w: seq<nat>, pre: seq<bool>, roots: set<nat>,
    x: nat, s0: Flags, t0: set<nat>, w0: seq<nat>)
    requires VisitState(g, st, t, w, pre, roots, x, s0, t0, w0)
    requires Closed(g, st, x)
    ensures MarkInvariant(g, st, pre, roots, t + {x}, w)
    ensures Progress(g, s0, t0, w0, st, t + {x}, w, x)
  {
    FinishStep(g, s0, t0, w0, st, t, w, pre, roots, x);
  }

  /** Finishing `visit(x)`: `x` is closed and joins `t`. */
  lemma FinishStep(
    g: Graph, s0: Flags, t0: set<nat>, w0: seq<nat>, s: Flags, t: set<nat>, w: seq<nat>,
    pre: seq<bool>, roots: set<nat>, x: nat)
    requires MarkInvariant(g, s, pre, roots, t, w) && Progress(g, s0, t0, w0, s, t, w, x)
    requires x < |g.sections| && s.visited[x] && x !in w && Reachable(g, s.alive, pre, roots, x)
    requires Closed(g, s, x)
    ensures MarkInvariant(g, s, pre, roots, t + {x}, w)
    ensures Progress(g, s0, t0, w0, s, t + {x}, w, x)
  {
    forall f | 0 <= f < |s.frags| && s.frags[f] && !s0.frags[f]
      ensures exists u :: (u in t + {x} || u == x) && u < |g.sections| && FragRef(g, u, f)
    {
      var u :| (u in t || u == x) && u < |g.sections| && FragRef(g, u, f);
    }
  }

  /** The sections not yet visited; `mark` shrinks it or the feeder at every step. */
  ghost function Unvisited(st: Flags): set<nat> {
    set i: nat | i < |st.visited| && !st.visited[i]
  }

  /**
   * The invariant of the `mark` worklist loop, from the flags `sInit` at its
   * start (`pre` is their visited part): every root is finished or fed;
   * every visited section was visited before, is finished or is fed; every
   * fragment set alive is referenced by a finished section.
   */
  ghost predicate MarkLoop(
    g: Graph, sInit: Flags, pre: seq<bool>, roots: set<nat>, st: Flags, t: set<nat>, w: seq<nat>)
  {
    && MarkInvariant(g, st, pre, roots, t, w)
    && Grown(g, sInit, st) && pre == sInit.visited
    && (forall r :: r in roots ==> r in t || r in w)
    && (forall v :: 0 <= v < |st.visited| && st.visited[v] ==> pre[v] || v in t || v in w)
    && (forall f :: 0 <= f < |st.frags| && st.frags[f] && !sInit.frags[f] ==>
          exists u :: u in t && u < |g.sections| && FragRef(g, u, f))
  }

  /** The feeder starts as the root list; nothing is finished yet. */
  lemma MarkLoopInit(g: Graph, st: Flags, roots: seq<nat>)
    requires WellFormed(g) && FlagsFit(g, st)
    requires forall i :: 0 <= i < |roots| ==> roots[i] < |g.sections| && st.visited[roots[i]]
    requires forall i, j :: 0 <= i < j < |roots| ==> roots[i] != roots[j]
    ensures MarkLoop(g, st, st.visited, Elems(roots), st, {}, roots)
  {
    var rs := Elems(roots);
    forall i | 0 <= i < |roots| ensures Reachable(g, st.alive, st.visited, rs, roots[i]) {
      ReachableRoot(g, st.alive, st.visited, rs, roots[i]);
    }
  }

  /** Taking the head of the feeder: it may be visited next. */
  lemma MarkLoopPop(g: Graph, sInit: Flags, pre: seq<bool>, roots: set<nat>, st: Flags, t: set<nat>, w: seq<nat>)
    requires MarkLoop(g, sInit, pre, roots, st, t, w) && |w| > 0
    ensures MarkInvariant(g, st, pre, roots, t, w[1..])
    ensures w[0] < |g.sections| && st.visited[w[0]] && w[0] !in t && w[0] !in w[1..]
    ensures Reachable(g, st.alive, pre, roots, w[0])
  {
    var w' := w[1..];
    forall i | 0 <= i < |w'| ensures w'[i] != w[0] {
      assert w'[i] == w[i + 1];
    }
  }

  /**
   * One turn of the loop: after `visit(w[0])` has run from (st, t, w[1..])
   * to (s1, t1, w1), the loop invariant holds again, and either some section
   * was newly visited or the feeder got shorter.
   */
  lemma MarkLoopStep(
    g: Graph, sInit: Flags, pre: seq<bool>, roots: set<nat>, st: Flags, t: set<nat>, w: seq<nat>,
    s1: Flags, t1: set<nat>, w1: seq<nat>)
    requires MarkLoop(g, sInit, pre, roots, st, t, w) && |w| > 0
    requires MarkInvariant(g, s1, pre, roots, t1, w1)
    requires Progress(g, st, t, w[1..], s1, t1, w1, w[0]) && w[0] in t1
    ensures MarkLoop(g, sInit, pre, roots, s1, t1, w1)
    ensures Unvisited(s1) < Unvisited(st) || (Unvisited(s1) == Unvisited(st) && |w1| < |w|)
  {
    var x, rest := w[0], w[1..];
    assert forall v :: v in w ==> v == x || v in rest by {
      forall v | v in w ensures v == x || v in rest {
        var i :| 0 <= i < |w| && w[i] == v;
        if i > 0 {
          assert rest[i - 1] == v;
        }
      }
    }
    assert forall v :: v in rest ==> v in w1 by {
      forall v | v in rest ensures v in w1 {
        var i :| 0 <= i < |rest| && rest[i] == v;
        assert w1[..|rest|][i] == v;
      }
    }
    forall f | 0 <= f < |s1.frags| && s1.frags[f] && !sInit.frags[f]
      ensures exists u :: u in t1 && u < |g.sections| && FragRef(g, u, f)
    {
      if !st.frags[f] {
        var u :| (u in t1 || u == x) && u < |g.sections| && FragRef(g, u, f);
      }
    }
    assert Unvisited(s1) <= Unvisited(st);
    if |w1| >= |w| {
      var v := w1[|rest|];
      assert v in Unvisited(st) && v !in Unvisited(s1);
    }
  }

  /** When the feeder is empty, every reachable section is finished. */
  lemma MarkLoopReached(g: Graph, sInit: Flags, pre: seq<bool>, roots: set<nat>, st: Flags, t: set<nat>)
    requires MarkLoop(g, sInit, pre, roots, st, t, [])
    ensures forall v: nat :: Reachable(g, st.alive, pre, roots, v) ==> v in t
  {
    var n := |g.sections|;
    forall u: nat, v: nat | u in t && u < n && v < n && Edge(g, u, v) && st.alive[v] && !pre[v]
      ensures v in t
    {
      ClosedEdge(g, st, u, v);
    }
    forall v: nat | Reachable(g, st.alive, pre, roots, v) ensures v in t {
      ReachableLeast(g, st.alive, pre, roots, t, v);
    }
  }

  /**
   * When the feeder is empty, the visited sections are exactly the
   * pre-visited ones and those reachable from the roots.
   */
  lemma MarkLoopVisited(g: Graph, sInit: Flags, pre: seq<bool>, roots: set<nat>, st: Flags, t: set<nat>)
    requires MarkLoop(g, sInit, pre, roots, st, t, [])
    ensures forall v :: 0 <= v < |g.sections| ==>
      (st.visited[v] <==> pre[v] || Reachable(g, st.alive, pre, roots, v))
  {
    MarkLoopReached(g, sInit, pre, roots, st, t);
  }

  /**
   * When the feeder is empty, the alive fragments are exactly those alive
   * before and those a reachable section refers to.
   */
  lemma MarkLoopFrags(g: Graph, sInit: Flags, pre: seq<bool>, roots: set<nat>, st: Flags, t: set<nat>)
    requires MarkLoop(g, sInit, pre, roots, st, t, [])
    ensures forall f :: 0 <= f < |g.fragments| ==>
      (st.frags[f] <==> (sInit.frags[f] || ReachesFrag(g, st.alive, pre, roots, f)))
  {
    MarkLoopReached(g, sInit, pre, roots, st, t);
    forall f | 0 <= f < |g.fragments| && ReachesFrag(g, st.alive, pre, roots, f)
      ensures st.frags[f]
    {
      var u: nat :| u < |g.sections| && Reachable(g, st.alive, pre, roots, u) && FragRef(g, u, f);
      ClosedFrag(g, st, u, f);
    }
  }

  /** When the feeder is empty, no reachable section has an edge to an alive, unvisited one. */
  lemma MarkLoopClosed(g: Graph, sInit: Flags, pre: seq<bool>, roots: set<nat>, st: Flags, t: set<nat>)
    requires MarkLoop(g, sInit, pre, roots, st, t, [])
    ensures forall u: nat, v: nat ::
      (u < |g.sections| && Reachable(g, st.alive, pre, roots, u) && Edge(g, u, v)) ==>
        v < |g.sections| && (!st.alive[v] || st.visited[v])
  {
    MarkLoopReached(g, sInit, pre, roots, st, t);
    forall u: nat, v: nat | u < |g.sections| && Reachable(g, st.alive, pre, roots, u) && Edge(g, u, v)
      ensures v < |g.sections| && (!st.alive[v] || st.visited[v])
    {
      ClosedEdge(g, st, u, v);
    }
  }
}
