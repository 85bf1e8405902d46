/**
 * The mark-sweep section garbage collector behind `--gc-sections`
 * (gc_sections.cc). Sections are vertices and relocations are edges; a
 * section reachable from a root is kept, every other allocatable section is
 * killed. The parallel loops of the original run here one after another and
 * the work-stealing feeder is a worklist field, `feeder`.
 */
module GcSections {
  import opened Wrappers
  import opened Elf
  import opened LinkGraph
  import opened Reachability
  import opened MarkProof
  import opened RootSet
  import opened SweepSpec
  import opened FragmentSpec
  import opened GcSpec

  /** `visit` recurses inline while its depth is below this, then feeds. */
  const InlineDepth: nat := 3

  class Collector {
    const g: Graph
    const cfg: Config
    /** `InputSection::is_alive`, by section id. */
    const isAlive: array<bool>
    /** `InputSection::is_visited`, by section id. */
    const isVisited: array<bool>
    /** `SectionFragment::is_alive`, by fragment id. */
    const fragAlive: array<bool>
    /** The `garbage_sections` statistics counter. */
    var counter: nat
    /** Sections handed to the feeder and not yet visited. */
    var feeder: seq<nat>
    /** Sections whose `visit` has finished. */
    ghost var traversed: set<nat>

    ghost predicate Valid() {
      && WellFormed(g)
      && isAlive.Length == |g.sections| && isVisited.Length == |g.sections|
      && fragAlive.Length == |g.fragments|
      && isAlive != isVisited && fragAlive != isAlive && fragAlive != isVisited
    }

    ghost function State(): (st: Flags)
      reads isAlive, isVisited, fragAlive
      requires Valid()
      ensures FlagsFit(g, st)
    {
      Flags(isAlive[..], isVisited[..], fragAlive[..])
    }

    constructor (g: Graph, cfg: Config, alive: seq<bool>, frags: seq<bool>)
      requires WellFormed(g) && |alive| == |g.sections| && |frags| == |g.fragments|
      ensures Valid() && this.g == g && this.cfg == cfg
      ensures State() == Flags(alive, seq(|g.sections|, _ => false), frags)
      ensures counter == 0 && feeder == []
    {
      this.g := g;
      this.cfg := cfg;
      isAlive := new bool[|alive|](i requires 0 <= i < |alive| => alive[i]);
      isVisited := new bool[|g.sections|](_ => false);
      fragAlive := new bool[|frags|](i requires 0 <= i < |frags| => frags[i]);
      counter := 0;
      feeder := [];
      traversed := {};
    }

    /**
     * `mark_section`: true iff the section pointer is set, the section is
     * alive and this call is the one that flips `is_visited` to true. A null
     * or dead section's flag is left alone.
     */
    method MarkSection(sec: Option<nat>) returns (marked: bool)
      requires Valid() && (sec.Some? ==> sec.value < |g.sections|)
      modifies isVisited
      ensures marked <==> sec.Some? && isAlive[sec.value] && !old(isVisited[sec.value])
      ensures isVisited[..] ==
        if sec.Some? && isAlive[sec.value] then old(isVisited[..])[sec.value := true]
        else old(isVisited[..])
    {
      if sec.None? {
        return false;
      }
      var i := sec.value;
      if !isAlive[i] {
        return false;
      }
      var was := isVisited[i];
      isVisited[i] := true;
      marked := !was;
    }

    /** A second `mark_section` on the same section never succeeds. */
    method MarkSectionTwice(sec: Option<nat>) returns (first: bool, second: bool)
      requires Valid() && (sec.Some? ==> sec.value < |g.sections|)
      modifies isVisited
      ensures !second
      ensures first <==> sec.Some? && isAlive[sec.value] && !old(isVisited[sec.value])
    {
      first := MarkSection(sec);
      second := MarkSection(sec);
    }

    /**
     * `visit`: set the fragments of `x` alive, mark the sections its FDEs
     * (past the CIE backlink) and its relocations point to, and visit the
     * newly marked ones inline while `depth < inlineDepth`, else feed them.
     */
    method Visit(x: nat, depth: nat, inlineDepth: nat, ghost pre: seq<bool>, ghost roots: set<nat>)
      requires Valid() && depth <= inlineDepth
      requires MarkInvariant(g, State(), pre, roots, traversed, feeder)
      requires x < |g.sections| && isVisited[x] && x !in traversed && x !in feeder
      requires Reachable(g, isAlive[..], pre, roots, x)
      modifies this`feeder, this`traversed, isVisited, fragAlive
      decreases inlineDepth - depth, 2
      ensures MarkInvariant(g, State(), pre, roots, traversed, feeder)
      ensures x in traversed
      ensures Progress(g, old(State()), old(traversed), old(feeder), State(), traversed, feeder, x)
    {
      ghost var s0, t0, w0 := State(), traversed, feeder;
      ProgressStart(g, s0, t0, w0, x);
      assert VisitDone(g, s0, x, 0, 0, 0, 0);
      VisitFragments(x, pre, roots, s0, t0, w0);
      VisitFdes(x, pre, roots, s0, t0, w0);
      VisitRels(x, depth, inlineDepth, pre, roots, s0, t0, w0);
      VisitDoneClosed(g, State(), x);
      FinishStepV(g, State(), traversed, feeder, pre, roots, x, s0, t0, w0);
      traversed := traversed + {x};
    }

    /** The state `visit(x)` keeps between its steps, measured from its start (s0, t0, w0). */
    ghost predicate VisitInv(x: nat, pre: seq<bool>, roots: set<nat>, s0: Flags, t0: set<nat>, w0: seq<nat>)
      reads this, isAlive, isVisited, fragAlive
    {
      Valid() && VisitState(g, State(), traversed, feeder, pre, roots, x, s0, t0, w0)
    }

    /** The `rel_fragments` loop of `visit`. */
    method VisitFragments(x: nat, ghost pre: seq<bool>, ghost roots: set<nat>,
                          ghost s0: Flags, ghost t0: set<nat>, ghost w0: seq<nat>)
      requires VisitInv(x, pre, roots, s0, t0, w0)
      requires VisitDone(g, State(), x, 0, 0, 0, 0)
      modifies fragAlive
      ensures VisitInv(x, pre, roots, s0, t0, w0)
      ensures VisitDone(g, State(), x, |g.sections[x].relFragments|, 0, 0, 0)
      ensures forall f :: 0 <= f < fragAlive.Length ==>
        fragAlive[f] == (old(fragAlive[f]) || f in g.sections[x].relFragments)
    {
      var sec := g.sections[x];
      assert SectionOk(g, x);
      ghost var fr0 := fragAlive[..];
      var i := 0;
      while i < |sec.relFragments|
        invariant 0 <= i <= |sec.relFragments|
        invariant VisitInv(x, pre, roots, s0, t0, w0)
        invariant VisitDone(g, State(), x, i, 0, 0, 0)
        invariant forall f :: 0 <= f < fragAlive.Length ==> fragAlive[f] == (fr0[f] || f in sec.relFragments[..i])
      {
        assert sec.relFragments[..i + 1] == sec.relFragments[..i] + [sec.relFragments[i]];
        ghost var s := State();
        var f := sec.relFragments[i];
        fragAlive[f] := true;
        assert State() == s.(frags := s.frags[f := true]);
        FragStepV(g, s, traversed, feeder, pre, roots, x, s0, t0, w0, f);
        VisitDoneGrown(g, s, State(), x, i, 0, 0, 0);
        VisitDoneNextFrag(g, State(), x, i);
        i := i + 1;
      }
      assert sec.relFragments[..i] == sec.relFragments;
    }

    /** The `fdes` loop of `visit`: relocations past the first are followed and fed. */
    method VisitFdes(x: nat, ghost pre: seq<bool>, ghost roots: set<nat>,
                     ghost s0: Flags, ghost t0: set<nat>, ghost w0: seq<nat>)
      requires VisitInv(x, pre, roots, s0, t0, w0)
      requires VisitDone(g, State(), x, |g.sections[x].relFragments|, 0, 0, 0)
      modifies this`feeder, isVisited
      ensures VisitInv(x, pre, roots, s0, t0, w0)
      ensures VisitDone(g, State(), x, |g.sections[x].relFragments|, |g.sections[x].fdes|, 0, 0)
      ensures FdeVisited(g, x, isAlive[..], old(isVisited[..]), isVisited[..], |g.sections[x].fdes|, 0)
    {
      var sec := g.sections[x];
      assert SectionOk(g, x);
      ghost var v0 := isVisited[..];
      var d := 0;
      while d < |sec.fdes|
        invariant 0 <= d <= |sec.fdes|
        invariant VisitInv(x, pre, roots, s0, t0, w0)
        invariant VisitDone(g, State(), x, |sec.relFragments|, d, 0, 0)
        invariant FdeVisited(g, x, isAlive[..], v0, isVisited[..], d, 0)
      {
        VisitFde(x, d, pre, roots, s0, t0, w0, v0);
        d := d + 1;
      }
    }

    /** One FDE `d` of `x`: every relocation past the first is followed. */
    method VisitFde(x: nat, d: nat, ghost pre: seq<bool>, ghost roots: set<nat>,
                    ghost s0: Flags, ghost t0: set<nat>, ghost w0: seq<nat>, ghost v0: seq<bool>)
      requires VisitInv(x, pre, roots, s0, t0, w0) && d < |g.sections[x].fdes|
      requires VisitDone(g, State(), x, |g.sections[x].relFragments|, d, 0, 0)
      requires FdeVisited(g, x, isAlive[..], v0, isVisited[..], d, 0)
      modifies this`feeder, isVisited
      ensures VisitInv(x, pre, roots, s0, t0, w0)
      ensures VisitDone(g, State(), x, |g.sections[x].relFragments|, d + 1, 0, 0)
      ensures FdeVisited(g, x, isAlive[..], v0, isVisited[..], d + 1, 0)
    {
      var sec := g.sections[x];
      assert SectionOk(g, x);
      var rels := sec.fdes[d].rels;
      FdeVisitedBounds(g, x, isAlive[..], v0, isVisited[..], d);
      var j := 1;
      while j < |rels|
        invariant 1 <= j <= |rels|
        invariant VisitInv(x, pre, roots, s0, t0, w0)
        invariant VisitDone(g, State(), x, |sec.relFragments|, d, j, 0)
        invariant FdeVisited(g, x, isAlive[..], v0, isVisited[..], d, j)
      {
        VisitFdeReloc(x, d, j, pre, roots, s0, t0, w0, v0);
        j := j + 1;
      }
      FdeVisitedBounds(g, x, isAlive[..], v0, isVisited[..], d);
      VisitDoneNextFde(g, State(), x, |sec.relFragments|, d);
    }

    /** Relocation `j` of FDE `d` of `x`, one step of the loop in `VisitFde`. */
    method VisitFdeReloc(x: nat, d: nat, j: nat, ghost pre: seq<bool>, ghost roots: set<nat>,
                         ghost s0: Flags, ghost t0: set<nat>, ghost w0: seq<nat>, ghost v0: seq<bool>)
      requires VisitInv(x, pre, roots, s0, t0, w0)
      requires d < |g.sections[x].fdes| && 1 <= j < |g.sections[x].fdes[d].rels|
      requires VisitDone(g, State(), x, |g.sections[x].relFragments|, d, j, 0)
      requires FdeVisited(g, x, isAlive[..], v0, isVisited[..], d, j)
      modifies this`feeder, isVisited
      ensures VisitInv(x, pre, roots, s0, t0, w0)
      ensures VisitDone(g, State(), x, |g.sections[x].relFragments|, d, j + 1, 0)
      ensures FdeVisited(g, x, isAlive[..], v0, isVisited[..], d, j + 1)
    {
      var sec := g.sections[x];
      assert SectionOk(g, x);
      ghost var s := State();
      ghost var vis := isVisited[..];
      var t := g.symbols[sec.fdes[d].rels[j].sym].target;
      assert t == EhTarget(g, sec.fdes[d].rels[j]);
      FollowEhReloc(x, t, pre, roots, s0, t0, w0);
      FdeVisitedNext(g, x, isAlive[..], v0, vis, isVisited[..], d, j, t);
      VisitDoneGrown(g, s, State(), x, |sec.relFragments|, d, j, 0);
      VisitDoneNextEh(g, State(), x, |sec.relFragments|, d, j);
    }

    /** One FDE relocation: mark the section it resolves to, and feed it if newly marked. */
    method FollowEhReloc(x: nat, t: Target, ghost pre: seq<bool>, ghost roots: set<nat>,
                         ghost s0: Flags, ghost t0: set<nat>, ghost w0: seq<nat>)
      requires VisitInv(x, pre, roots, s0, t0, w0) && TargetOk(g, t)
      requires t.Sec? ==> Edge(g, x, t.sec)
      modifies this`feeder, isVisited
      ensures VisitInv(x, pre, roots, s0, t0, w0)
      ensures Grown(g, old(State()), State()) && EhDone(g, State(), t)
      ensures isVisited[..] ==
        if t.Sec? && isAlive[t.sec] then old(isVisited[..])[t.sec := true] else old(isVisited[..])
      ensures feeder ==
        if t.Sec? && isAlive[t.sec] && !old(isVisited[t.sec]) then old(feeder) + [t.sec] else old(feeder)
    {
      if t.Sec? {
        ghost var s := State();
        var marked := MarkSection(Some(t.sec));
        if marked {
          assert State() == s.(visited := s.visited[t.sec := true]);
          PushStepV(g, s, traversed, feeder, pre, roots, x, s0, t0, w0, t.sec);
          feeder := feeder + [t.sec];
        } else {
          assert State() == s;
        }
      }
    }

    /** The `rels` loop of `visit`. */
    method VisitRels(x: nat, depth: nat, inlineDepth: nat, ghost pre: seq<bool>, ghost roots: set<nat>,
                     ghost s0: Flags, ghost t0: set<nat>, ghost w0: seq<nat>)
      requires VisitInv(x, pre, roots, s0, t0, w0) && depth <= inlineDepth
      requires VisitDone(g, State(), x, |g.sections[x].relFragments|, |g.sections[x].fdes|, 0, 0)
      modifies this`feeder, this`traversed, isVisited, fragAlive
      decreases inlineDepth - depth, 1
      ensures VisitInv(x, pre, roots, s0, t0, w0)
      ensures VisitDone(g, State(), x, |g.sections[x].relFragments|, |g.sections[x].fdes|, 0, |g.sections[x].rels|)
    {
      var sec := g.sections[x];
      var k := 0;
      while k < |sec.rels|
        invariant 0 <= k <= |sec.rels|
        invariant VisitInv(x, pre, roots, s0, t0, w0)
        invariant VisitDone(g, State(), x, |sec.relFragments|, |sec.fdes|, 0, k)
      {
        ghost var s := State();
        FollowRel(x, k, depth, inlineDepth, pre, roots, s0, t0, w0);
        VisitDoneGrown(g, s, State(), x, |sec.relFragments|, |sec.fdes|, 0, k);
        VisitDoneNextRel(g, State(), x, k);
        k := k + 1;
      }
    }

    /**
     * One ordinary relocation of `x`: a fragment is set alive; a section is
     * marked and, if newly marked, visited inline below the depth cutoff or
     * fed otherwise; an unresolved symbol does nothing.
     */
    method FollowRel(x: nat, k: nat, depth: nat, inlineDepth: nat, ghost pre: seq<bool>, ghost roots: set<nat>,
                     ghost s0: Flags, ghost t0: set<nat>, ghost w0: seq<nat>)
      requires VisitInv(x, pre, roots, s0, t0, w0) && depth <= inlineDepth
      requires k < |g.sections[x].rels|
      modifies this`feeder, this`traversed, isVisited, fragAlive
      decreases inlineDepth - depth, 0
      ensures VisitInv(x, pre, roots, s0, t0, w0)
      ensures Grown(g, old(State()), State()) && RelDone(g, State(), RelTarget(g, x, k))
      ensures !RelTarget(g, x, k).Sec? ==>
        feeder == old(feeder) && traversed == old(traversed) && isVisited[..] == old(isVisited[..])
      ensures RelTarget(g, x, k).Frag? ==>
        fragAlive[..] == old(fragAlive[..])[RelTarget(g, x, k).frag := true]
      ensures RelTarget(g, x, k).Unresolved? ==> fragAlive[..] == old(fragAlive[..])
      ensures RelTarget(g, x, k).Sec? && (!isAlive[RelTarget(g, x, k).sec] || old(isVisited[RelTarget(g, x, k).sec])) ==>
        feeder == old(feeder) && traversed == old(traversed) &&
        isVisited[..] == old(isVisited[..]) && fragAlive[..] == old(fragAlive[..])
      ensures RelTarget(g, x, k).Sec? && isAlive[RelTarget(g, x, k).sec] && !old(isVisited[RelTarget(g, x, k).sec])
              && depth >= inlineDepth ==>
        feeder == old(feeder) + [RelTarget(g, x, k).sec] && traversed == old(traversed) &&
        isVisited[..] == old(isVisited[..])[RelTarget(g, x, k).sec := true] && fragAlive[..] == old(fragAlive[..])
    {
      var sec := g.sections[x];
      RelSymbolInRange(g, x, k);
      var sym := g.symbols[g.objs[sec.file].symbols[sec.rels[k].rSym]];
      assert sym.target == RelTarget(g, x, k);
      ghost var s := State();
      if sym.target.Frag? {
        fragAlive[sym.target.frag] := true;
        assert State() == s.(frags := s.frags[sym.target.frag := true]);
        FragStepV(g, s, traversed, feeder, pre, roots, x, s0, t0, w0, sym.target.frag);
        return;
      }
      var marked := MarkSection(InputSectionOf(sym.target));
      if !marked {
        assert State() == s;
        return;
      }
      var y := sym.target.sec;
      assert State() == s.(visited := s.visited[y := true]);
      assert Edge(g, x, y);
      if depth < inlineDepth {
        InlineEnterV(g, s, traversed, feeder, pre, roots, x, s0, t0, w0, y);
        ghost var tm, wm := traversed, feeder;
        Visit(y, depth + 1, inlineDepth, pre, roots);
        InlineExitV(g, s, tm, wm, pre, roots, x, s0, t0, w0, y, State(), traversed, feeder);
      } else {
        PushStepV(g, s, traversed, feeder, pre, roots, x, s0, t0, w0, y);
        feeder := feeder + [y];
      }
    }
  
    /**
     * `mark`: the feeder starts as the root list; each root and each fed
     * section is visited until the feeder is empty. Afterwards the visited
     * sections are exactly those visited before (the roots, the
     * non-SHF_ALLOC sections) and those reachable from the roots; the alive
     * fragments are those alive before and those a reachable section refers
     * to; and no reachable section has an edge to an alive, unvisited one.
     * The result does not depend on `inlineDepth`.
     */
    method Mark(roots: seq<nat>, inlineDepth: nat)
      requires Valid()
      requires forall i :: 0 <= i < |roots| ==> roots[i] < |g.sections| && isVisited[roots[i]]
      requires forall i, j :: 0 <= i < j < |roots| ==> roots[i] != roots[j]
      modifies this`feeder, this`traversed, isVisited, fragAlive
      ensures feeder == []
      ensures forall v :: 0 <= v < |g.sections| ==>
        (isVisited[v] <==>
           (old(isVisited[v]) || Reachable(g, isAlive[..], old(isVisited[..]), Elems(roots), v)))
      ensures forall f :: 0 <= f < |g.fragments| ==>
        (fragAlive[f] <==>
           (old(fragAlive[f]) || ReachesFrag(g, isAlive[..], old(isVisited[..]), Elems(roots), f)))
      ensures forall u: nat, v: nat ::
        (u < |g.sections| && Reachable(g, isAlive[..], old(isVisited[..]), Elems(roots), u) &&
         Edge(g, u, v)) ==> v < |g.sections| && (!isAlive[v] || isVisited[v])
    {
      ghost var sInit := State();
      ghost var rs := Elems(roots);
      MarkLoopInit(g, sInit, roots);
      feeder := roots;
      traversed := {};
      DrainFeeder(inlineDepth, sInit, rs);
      ghost var st := State();
      MarkLoopVisited(g, sInit, sInit.visited, rs, st, traversed);
      MarkLoopFrags(g, sInit, sInit.visited, rs, st, traversed);
      MarkLoopClosed(g, sInit, sInit.visited, rs, st, traversed);
      assert isAlive[..] == st.alive && old(isVisited[..]) == sInit.visited;
    }

    /**
     * The worklist loop of `mark`: each section taken from the feeder is
     * visited until the feeder is empty.
     */
    method DrainFeeder(inlineDepth: nat, ghost sInit: Flags, ghost rs: set<nat>)
      requires Valid() && MarkLoop(g, sInit, sInit.visited, rs, State(), traversed, feeder)
      modifies this`feeder, this`traversed, isVisited, fragAlive
      ensures feeder == [] && MarkLoop(g, sInit, sInit.visited, rs, State(), traversed, [])
    {
      while feeder != []
        invariant MarkLoop(g, sInit, sInit.visited, rs, State(), traversed, feeder)
        decreases Unvisited(State()), |feeder|
      {
        ghost var st, t, w := State(), traversed, feeder;
        MarkLoopPop(g, sInit, sInit.visited, rs, st, t, w);
        var x := feeder[0];
        feeder := feeder[1..];
        Visit(x, 0, inlineDepth, sInit.visited, rs);
        MarkLoopStep(g, sInit, sInit.visited, rs, st, t, w, State(), traversed, feeder);
      }
    }

    /** `enqueue_section`: a section this call marks joins the roots. */
    method EnqueueSection(sec: Option<nat>, roots: seq<nat>) returns (roots': seq<nat>)
      requires Valid() && (sec.Some? ==> sec.value < |g.sections|)
      modifies isVisited
      ensures Enqueued(g, old(State()), roots, SectionRequest(sec), State(), roots')
    {
      var marked := MarkSection(sec);
      roots' := if marked then roots + [sec.value] else roots;
      assert roots'[..|roots|] == roots;
    }

    /**
     * `enqueue_symbol`: a set symbol's fragment is set alive, or else the
     * section it lies in is enqueued.
     */
    method EnqueueSymbol(sym: Option<nat>, roots: seq<nat>) returns (roots': seq<nat>)
      requires Valid() && (sym.Some? ==> sym.value < |g.symbols|)
      modifies isVisited, fragAlive
      ensures Enqueued(g, old(State()), roots, SymbolRequest(g, sym), State(), roots')
    {
      if sym.None? {
        EnqueuedNothing(g, State(), roots);
        return roots;
      }
      var t := g.symbols[sym.value].target;
      assert TargetOk(g, t);
      if t.Frag? {
        fragAlive[t.frag] := true;
        roots' := roots;
        assert roots'[..|roots|] == roots;
      } else {
        roots' := EnqueueSection(InputSectionOf(t), roots);
      }
    }

    /**
     * The first loop of `collect_root_set` for file `f`: each section in its
     * slots is set visited if it is not SHF_ALLOC, then enqueued if it is an
     * init/fini or note section.
     */
    method CollectFileSections(f: nat, roots: seq<nat>) returns (roots': seq<nat>)
      requires Valid() && f < |g.objs|
      modifies isVisited
      ensures Enqueued(g, PreVisit(g, old(State()), SlotsIn(g, f, |g.objs[f].sections|)), roots,
                       Candidates(g, SlotsIn(g, f, |g.objs[f].sections|)), State(), roots')
    {
      ghost var a := State();
      var secs := g.objs[f].sections;
      roots' := roots;
      assert SlotsIn(g, f, 0) == {};
      assert PreVisit(g, a, {}) == a;
      assert Candidates(g, {}) == {};
      EnqueuedNothing(g, a, roots);
      var k := 0;
      while k < |secs|
        invariant k <= |secs|
        invariant Enqueued(g, PreVisit(g, a, SlotsIn(g, f, k)), roots, Candidates(g, SlotsIn(g, f, k)), State(), roots')
      {
        SlotsInStep(g, f, k);
        if secs[k].Some? {
          var i := secs[k].value;
          ghost var done := SlotsIn(g, f, k);
          ghost var st, r := State(), roots';
          roots' := CollectSection(i, roots');
          CandidatesOutside(g, done, {i});
          PreVisitShift(g, a, done, roots, Candidates(g, done), st, r, {i});
          EnqueuedCompose(g, PreVisit(g, a, done + {i}), roots, Candidates(g, done), PreVisit(g, st, {i}), r,
                          Candidates(g, {i}), State(), roots');
          CandidatesUnion(g, done, {i});
        }
        k := k + 1;
      }
    }

    /**
     * The body of the first loop for section `i`: set visited if it is not
     * SHF_ALLOC, then enqueued if it is an init/fini or note section.
     */
    method CollectSection(i: nat, roots: seq<nat>) returns (roots': seq<nat>)
      requires Valid() && i < |g.sections|
      modifies isVisited
      ensures Enqueued(g, PreVisit(g, old(State()), {i}), roots, Candidates(g, {i}), State(), roots')
    {
      ghost var st := State();
      var isec := g.sections[i];
      if !IsAlloc(isec.shFlags) {
        isVisited[i] := true;
      }
      assert State() == PreVisit(g, st, {i});
      CandidatesSingle(g, i);
      if IsInitFini(isec.shType, isec.name) || isec.shType == SHT_NOTE {
        roots' := EnqueueSection(Some(i), roots);
      } else {
        roots' := roots;
        EnqueuedNothing(g, State(), roots);
      }
    }

    /** The first loop of `collect_root_set`, over every file. */
    method CollectSectionRoots() returns (roots: seq<nat>)
      requires Valid()
      modifies isVisited
      ensures Enqueued(g, PreVisit(g, old(State()), SectionsOfFiles(g, |g.objs|)), [],
                       Candidates(g, SectionsOfFiles(g, |g.objs|)), State(), roots)
    {
      ghost var a := State();
      roots := [];
      assert SectionsOfFiles(g, 0) == {};
      assert PreVisit(g, a, {}) == a;
      assert Candidates(g, {}) == {};
      EnqueuedNothing(g, a, []);
      var f := 0;
      while f < |g.objs|
        invariant f <= |g.objs|
        invariant Enqueued(g, PreVisit(g, a, SectionsOfFiles(g, f)), [],
                           Candidates(g, SectionsOfFiles(g, f)), State(), roots)
      {
        ghost var done := SectionsOfFiles(g, f);
        ghost var slots := SlotsIn(g, f, |g.objs[f].sections|);
        ghost var st, r := State(), roots;
        roots := CollectFileSections(f, roots);
        SectionsOfFilesStep(g, f);
        CandidatesOutside(g, done, slots);
        PreVisitShift(g, a, done, [], Candidates(g, done), st, r, slots);
        EnqueuedCompose(g, PreVisit(g, a, done + slots), [], Candidates(g, done), PreVisit(g, st, slots), r,
                        Candidates(g, slots), State(), roots);
        CandidatesUnion(g, done, slots);
        f := f + 1;
      }
    }

    /** The second loop of `collect_root_set` for file `f`: the symbols it owns and exports. */
    method CollectFileExported(f: nat, roots: seq<nat>) returns (roots': seq<nat>)
      requires Valid() && f < |g.objs|
      modifies isVisited, fragAlive
      ensures FileOk(g, f)
      ensures Enqueued(g, old(State()), roots, ExportedRequests(g, f, g.objs[f].symbols), State(), roots')
    {
      ghost var a := State();
      assert FileOk(g, f);
      var syms := g.objs[f].symbols;
      roots' := roots;
      EnqueuedNothing(g, a, roots);
      var k := 0;
      while k < |syms|
        invariant k <= |syms|
        invariant Enqueued(g, a, roots, ExportedRequests(g, f, syms[..k]), State(), roots')
      {
        ghost var st, r := State(), roots';
        var sym := g.symbols[syms[k]];
        if sym.file == f && sym.isExported {
          roots' := EnqueueSymbol(Some(syms[k]), roots');
        } else {
          EnqueuedNothing(g, st, r);
        }
        assert syms[..k + 1][..k] == syms[..k];
        assert ExportedAt(g, f, syms[..k + 1], k) == (sym.file == f && sym.isExported);
        EnqueuedCompose(g, a, roots, ExportedRequests(g, f, syms[..k]), st, r,
                        if sym.file == f && sym.isExported then {sym.target} else {}, State(), roots');
        k := k + 1;
      }
      assert syms[..k] == syms;
    }

    /** The second loop of `collect_root_set`, over every file. */
    method CollectExportedRoots(roots: seq<nat>) returns (roots': seq<nat>)
      requires Valid()
      modifies isVisited, fragAlive
      ensures Enqueued(g, old(State()), roots, ExportedRoots(g, |g.objs|), State(), roots')
    {
      ghost var a := State();
      roots' := roots;
      EnqueuedNothing(g, a, roots);
      var f := 0;
      while f < |g.objs|
        invariant f <= |g.objs|
        invariant Enqueued(g, a, roots, ExportedRoots(g, f), State(), roots')
      {
        ghost var st, r := State(), roots';
        roots' := CollectFileExported(f, roots');
        EnqueuedCompose(g, a, roots, ExportedRoots(g, f), st, r,
                        ExportedRequests(g, f, g.objs[f].symbols), State(), roots');
        f := f + 1;
      }
    }

    /** `collect_root_set` on `--entry` and then each `--undefined` name. */
    method CollectNamedRoots(roots: seq<nat>) returns (roots': seq<nat>)
      requires Valid()
      modifies isVisited, fragAlive
      ensures Enqueued(g, old(State()), roots, NameRequests(g, [cfg.entry] + cfg.undefined), State(), roots')
    {
      ghost var a := State();
      roots' := EnqueueSymbol(Intern(g, cfg.entry), roots);
      assert ([cfg.entry] + cfg.undefined[..0])[..0] == [];
      var k := 0;
      while k < |cfg.undefined|
        invariant k <= |cfg.undefined|
        invariant Enqueued(g, a, roots, NameRequests(g, [cfg.entry] + cfg.undefined[..k]), State(), roots')
      {
        ghost var st, r := State(), roots';
        var name := cfg.undefined[k];
        roots' := EnqueueSymbol(Intern(g, name), roots');
        ghost var names := [cfg.entry] + cfg.undefined[..k + 1];
        assert names[..|names| - 1] == [cfg.entry] + cfg.undefined[..k] && names[|names| - 1] == name;
        EnqueuedCompose(g, a, roots, NameRequests(g, [cfg.entry] + cfg.undefined[..k]), st, r,
                        SymbolRequest(g, Intern(g, name)), State(), roots');
        k := k + 1;
      }
      assert cfg.undefined[..k] == cfg.undefined;
    }

    /** The last loop of `collect_root_set` for one CIE: the sections its relocations point into. */
    method CollectCieRels(rels: seq<EhReloc>, roots: seq<nat>) returns (roots': seq<nat>)
      requires Valid() && EhRelsOk(g, rels)
      modifies isVisited
      ensures Enqueued(g, old(State()), roots, CieRelRequests(g, rels), State(), roots')
    {
      ghost var a := State();
      roots' := roots;
      EnqueuedNothing(g, a, roots);
      var j := 0;
      while j < |rels|
        invariant j <= |rels|
        invariant Enqueued(g, a, roots, CieRelRequests(g, rels[..j]), State(), roots')
      {
        ghost var st, r := State(), roots';
        var t := g.symbols[rels[j].sym].target;
        assert TargetOk(g, t);
        roots' := EnqueueSection(InputSectionOf(t), roots');
        assert rels[..j + 1][..j] == rels[..j];
        EnqueuedCompose(g, a, roots, CieRelRequests(g, rels[..j]), st, r,
                        EhRequest(g, rels[j]), State(), roots');
        j := j + 1;
      }
      assert rels[..j] == rels;
    }

    /** The last loop of `collect_root_set` for file `f`: every CIE. */
    method CollectFileCies(f: nat, roots: seq<nat>) returns (roots': seq<nat>)
      requires Valid() && f < |g.objs|
      modifies isVisited
      ensures FileOk(g, f)
      ensures Enqueued(g, old(State()), roots, CieRequests(g, g.objs[f].cies), State(), roots')
    {
      ghost var a := State();
      assert FileOk(g, f);
      var cies := g.objs[f].cies;
      roots' := roots;
      EnqueuedNothing(g, a, roots);
      var c := 0;
      while c < |cies|
        invariant c <= |cies|
        invariant Enqueued(g, a, roots, CieRequests(g, cies[..c]), State(), roots')
      {
        ghost var st, r := State(), roots';
        roots' := CollectCieRels(cies[c].rels, roots');
        assert cies[..c + 1][..c] == cies[..c];
        EnqueuedCompose(g, a, roots, CieRequests(g, cies[..c]), st, r,
                        CieRelRequests(g, cies[c].rels), State(), roots');
        c := c + 1;
      }
      assert cies[..c] == cies;
    }

    /** The last loop of `collect_root_set`, over every file. */
    method CollectCieRoots(roots: seq<nat>) returns (roots': seq<nat>)
      requires Valid()
      modifies isVisited
      ensures Enqueued(g, old(State()), roots, CieRoots(g, |g.objs|), State(), roots')
    {
      ghost var a := State();
      roots' := roots;
      EnqueuedNothing(g, a, roots);
      var f := 0;
      while f < |g.objs|
        invariant f <= |g.objs|
        invariant Enqueued(g, a, roots, CieRoots(g, f), State(), roots')
      {
        ghost var st, r := State(), roots';
        roots' := CollectFileCies(f, roots');
        EnqueuedCompose(g, a, roots, CieRoots(g, f), st, r,
                        CieRequests(g, g.objs[f].cies), State(), roots');
        f := f + 1;
      }
    }

    /**
     * `collect_root_set`: non-SHF_ALLOC sections are set visited (they are
     * never collected), and the roots are exactly the sections requested by
     * `RootRequests` that are alive, SHF_ALLOC and not already visited, each
     * once; the requested fragments are set alive.
     */
    method CollectRootSet() returns (roots: seq<nat>)
      requires Valid()
      modifies isVisited, fragAlive
      ensures Distinct(roots)
      ensures forall j :: 0 <= j < |roots| ==> roots[j] < |g.sections| && isVisited[roots[j]]
      ensures forall i :: 0 <= i < |g.sections| ==>
        (i in roots <==>
           isAlive[i] && !old(isVisited[i]) && IsAlloc(g.sections[i].shFlags) && Sec(i) in RootRequests(g, cfg))
      ensures forall i :: 0 <= i < |g.sections| ==>
        isVisited[i] ==
          (old(isVisited[i]) || !IsAlloc(g.sections[i].shFlags) || (isAlive[i] && Sec(i) in RootRequests(g, cfg)))
      ensures forall f :: 0 <= f < |g.fragments| ==>
        fragAlive[f] == (old(fragAlive[f]) || Frag(f) in RootRequests(g, cfg))
    {
      ghost var a := State();
      ghost var all := SectionsOfFiles(g, |g.objs|);
      roots := CollectSectionRoots();
      ghost var s1, r1 := State(), roots;
      roots := CollectExportedRoots(roots);
      EnqueuedCompose(g, PreVisit(g, a, all), [], Candidates(g, all), s1, r1,
                      ExportedRoots(g, |g.objs|), State(), roots);
      ghost var s2, r2 := State(), roots;
      roots := CollectNamedRoots(roots);
      EnqueuedCompose(g, PreVisit(g, a, all), [], Candidates(g, all) + ExportedRoots(g, |g.objs|), s2, r2,
                      NameRequests(g, [cfg.entry] + cfg.undefined), State(), roots);
      ghost var s3, r3 := State(), roots;
      roots := CollectCieRoots(roots);
      EnqueuedCompose(g, PreVisit(g, a, all), [],
                      Candidates(g, all) + ExportedRoots(g, |g.objs|) + NameRequests(g, [cfg.entry] + cfg.undefined),
                      s3, r3, CieRoots(g, |g.objs|), State(), roots);
      CollectedExact(g, a, RootRequests(g, cfg), State(), roots);
    }
  
    /**
     * The body of the `sweep` loop for one slot: a section there that is
     * alive but was not visited is killed, counted and reported.
     */
    method SweepSlot(sec: Option<nat>) returns (removed: seq<nat>)
      requires Valid() && (sec.Some? ==> sec.value < |g.sections|)
      modifies isAlive, this`counter
      ensures SweepInv(g, cfg.printGcSections, old(State()), OptionSet(sec), State(), counter - old(counter), removed)
    {
      ghost var a := State();
      removed := [];
      if sec.Some? && isAlive[sec.value] && !isVisited[sec.value] {
        var i := sec.value;
        if cfg.printGcSections {
          removed := [i];
        }
        isAlive[i] := false;
        counter := counter + 1;
        assert Garbage(a) * {i} == {i};
      } else {
        assert Garbage(a) * OptionSet(sec) == {};
      }
    }

    /** The loop of `sweep` for file `f`, over its section slots. */
    method SweepFile(f: nat) returns (removed: seq<nat>)
      requires Valid() && f < |g.objs|
      modifies isAlive, this`counter
      ensures SweepInv(g, cfg.printGcSections, old(State()), SlotsIn(g, f, |g.objs[f].sections|), State(),
                       counter - old(counter), removed)
    {
      ghost var a, c0 := State(), counter;
      var secs := g.objs[f].sections;
      removed := [];
      assert SlotsIn(g, f, 0) == {};
      SweepInvStart(g, cfg.printGcSections, a);
      var k := 0;
      while k < |secs|
        invariant k <= |secs|
        invariant SweepInv(g, cfg.printGcSections, a, SlotsIn(g, f, k), State(), counter - c0, removed)
      {
        ghost var st, c1 := State(), counter;
        SlotInRange(g, f, k);
        var more := SweepSlot(secs[k]);
        SweepSlotStep(g, cfg.printGcSections, a, f, k, st, c1 - c0, removed, State(), counter - c1, more);
        removed := removed + more;
        k := k + 1;
      }
    }

    /** The loop of `sweep` over every file: the sweep of all sections. */
    method SweepFiles() returns (removed: seq<nat>)
      requires Valid()
      modifies isAlive, this`counter
      ensures Valid()
      ensures SweepInv(g, cfg.printGcSections, old(State()), SectionsOfFiles(g, |g.objs|),
                       State(), counter - old(counter), removed)
    {
      ghost var a, c0 := State(), counter;
      removed := [];
      assert SectionsOfFiles(g, 0) == {};
      SweepInvStart(g, cfg.printGcSections, a);
      var f := 0;
      while f < |g.objs|
        invariant f <= |g.objs|
        invariant SweepInv(g, cfg.printGcSections, a, SectionsOfFiles(g, f), State(), counter - c0, removed)
      {
        ghost var st, c1 := State(), counter;
        var more := SweepFile(f);
        SweepFileStep(g, cfg.printGcSections, a, f, st, c1 - c0, removed, State(), counter - c1, more);
        removed := removed + more;
        f := f + 1;
      }
    }

    /**
     * `sweep`: every section that is alive but was not visited is killed,
     * counted once, and, with `--print-gc-sections`, logged once.
     */
    method Sweep() returns (removed: seq<nat>)
      requires Valid()
      modifies isAlive, this`counter
      ensures forall i :: 0 <= i < |g.sections| ==> isAlive[i] == (old(isAlive[i]) && isVisited[i])
      ensures counter == old(counter) + |Garbage(old(State()))|
      ensures Reported(cfg.printGcSections, removed, Garbage(old(State())))
    {
      ghost var a, c0 := State(), counter;
      removed := SweepFiles();
      ghost var st := State();
      SweepInvAll(g, cfg.printGcSections, a, st, counter - c0, removed);
      forall i | 0 <= i < |g.sections| ensures isAlive[i] == (old(isAlive[i]) && isVisited[i]) {
        assert isAlive[i] == st.alive[i] && old(isAlive[i]) == a.alive[i] && isVisited[i] == a.visited[i];
      }
    }

    /** The loop of `mark_nonalloc_fragments` for file `f`. */
    method MarkFileFragments(f: nat)
      requires Valid() && f < |g.objs|
      modifies fragAlive
      ensures FileOk(g, f)
      ensures forall j :: 0 <= j < |g.fragments| ==>
        fragAlive[j] == (old(fragAlive[j]) || j in NonallocIn(g, g.objs[f].fragments))
    {
      assert FileOk(g, f);
      var ids := g.objs[f].fragments;
      var k := 0;
      while k < |ids|
        invariant k <= |ids|
        invariant forall j :: 0 <= j < |g.fragments| ==>
          fragAlive[j] == (old(fragAlive[j]) || j in NonallocIn(g, ids[..k]))
      {
        if !IsAlloc(g.fragments[ids[k]].outputSectionFlags) {
          fragAlive[ids[k]] := true;
        }
        assert ids[..k + 1][..k] == ids[..k];
        k := k + 1;
      }
      assert ids[..k] == ids;
    }

    /**
     * `mark_nonalloc_fragments`: the fragments of non-SHF_ALLOC output
     * sections listed by any file are set alive, since they are never
     * collected.
     */
    method MarkNonallocFragments()
      requires Valid()
      modifies fragAlive
      ensures forall j :: 0 <= j < |g.fragments| ==>
        fragAlive[j] == (old(fragAlive[j]) || j in NonallocFragments(g, |g.objs|))
    {
      var f := 0;
      while f < |g.objs|
        invariant f <= |g.objs|
        invariant forall j :: 0 <= j < |g.fragments| ==>
          fragAlive[j] == (old(fragAlive[j]) || j in NonallocFragments(g, f))
      {
        MarkFileFragments(f);
        f := f + 1;
      }
    }

    /**
     * `gc_sections`: keep the non-SHF_ALLOC fragments, collect the roots,
     * mark from them and sweep. The flags end as `Collected` of the flags
     * the pass started from; every section killed is counted once and,
     * with `--print-gc-sections`, logged once.
     */
    method GcSections() returns (removed: seq<nat>)
      requires Valid()
      modifies isAlive, isVisited, fragAlive, this`counter, this`feeder, this`traversed
      ensures State() == Collected(g, cfg, old(State()))
      ensures counter == old(counter) + |Killed(old(State()), State())|
      ensures Reported(cfg.printGcSections, removed, Killed(old(State()), State()))
      ensures feeder == []
    {
      ghost var a := State();
      MarkNonallocFragments();
      ghost var a1 := State();
      assert NonallocPhase(g, a, a1);
      var roots := CollectRootSet();
      ghost var a2 := State();
      ghost var rs := Elems(roots);
      RootsCollected(g, cfg, a1, roots);
      VisitedCollected(g, cfg, a1, a2);
      assert CollectPhase(g, cfg, a1, a2, rs);
      Mark(roots, InlineDepth);
      ghost var a3 := State();
      assert MarkPhase(g, a2, rs, a3);
      removed := Sweep();
      assert SweepPhase(g, a3, State());
      PhasesCompose(g, cfg, a, a1, a2, rs, a3, State());
    }
  }
}
