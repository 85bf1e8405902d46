/**
 * What `sweep` does to the flags: every section that is alive but was not
 * visited by the mark phase is killed, and nothing else changes. `Swept`
 * describes the effect of sweeping the sections in a set of slots, and
 * composes over disjoint sets, file by file.
 */
module SweepSpec {
  import opened LinkGraph

  /** The sections `sweep` removes from flags `st`: alive and not visited. */
  ghost function Garbage(st: Flags): set<nat> {
    set i: nat | i < |st.alive| && i < |st.visited| && st.alive[i] && !st.visited[i]
  }

  /** The liveness of `a` with the garbage among the sections `p` killed. */
  ghost function SweptAlive(a: Flags, p: set<nat>): (alive: seq<bool>)
    requires |a.visited| == |a.alive|
    ensures |alive| == |a.alive|
    ensures forall i :: 0 <= i < |a.alive| ==> alive[i] == (a.alive[i] && !(i in p && !a.visited[i]))
  {
    seq(|a.alive|, i requires 0 <= i < |a.alive| => a.alive[i] && !(i in p && !a.visited[i]))
  }

  /** `b` is `a` with the garbage among the sections `p` killed. */
  ghost predicate Swept(g: Graph, a: Flags, p: set<nat>, b: Flags) {
    && FlagsFit(g, a)
    && b == Flags(SweptAlive(a, p), a.visited, a.frags)
  }

  /**
   * Sweeping `p` and then a disjoint `q` sweeps `p + q`; the garbage of `q`
   * is the same before and after sweeping `p`, so the garbage counts add up.
   */
  lemma SweptCompose(g: Graph, a: Flags, p: set<nat>, b: Flags, q: set<nat>, c: Flags)
    requires Swept(g, a, p, b) && Swept(g, b, q, c) && p !! q
    ensures Swept(g, a, p + q, c)
    ensures Garbage(b) * q == Garbage(a) * q
    ensures |Garbage(a) * (p + q)| == |Garbage(a) * p| + |Garbage(a) * q|
  {
    assert SweptAlive(b, q) == SweptAlive(a, p + q);
    assert Garbage(a) * (p + q) == Garbage(a) * p + Garbage(a) * q;
    assert (Garbage(a) * p) * (Garbage(a) * q) == {};
  }

  /**
   * The "removing unused section" log: with `--print-gc-sections` it lists
   * the sections `s`, each once; otherwise it is empty.
   */
  ghost predicate Reported(shown: bool, log: seq<nat>, s: set<nat>) {
    && (shown ==> Distinct(log) && forall i :: i in log <==> i in s)
    && (!shown ==> log == [])
  }

  /** The logs of two disjoint sets of sections, one after the other, log their union. */
  lemma ReportedAppend(shown: bool, r1: seq<nat>, s1: set<nat>, r2: seq<nat>, s2: set<nat>)
    requires Reported(shown, r1, s1) && Reported(shown, r2, s2) && s1 !! s2
    ensures Reported(shown, r1 + r2, s1 + s2)
  {
    if shown {
      var r := r1 + r2;
      forall j, k | 0 <= j < k < |r| ensures r[j] != r[k] {
        if j < |r1| && k >= |r1| {
          assert r[j] in s1 && r[k] == r2[k - |r1|] && r[k] in s2;
        }
      }
    }
  }

  /**
   * Sweeping the sections `p` from flags `a` has given flags `st`, killed
   * `count` sections, and logged `log`: exactly the garbage among `p`.
   */
  ghost predicate SweepInv(g: Graph, shown: bool, a: Flags, p: set<nat>, st: Flags, count: int, log: seq<nat>) {
    && Swept(g, a, p, st)
    && count == |Garbage(a) * p|
    && Reported(shown, log, Garbage(a) * p)
  }

  lemma SweepInvStart(g: Graph, shown: bool, a: Flags)
    requires FlagsFit(g, a)
    ensures SweepInv(g, shown, a, {}, a, 0, [])
  {
  }

  /** Sweeping a further set of sections `q`, disjoint from `p`, extends the sweep to `p + q`. */
  lemma SweepInvStep(
    g: Graph, shown: bool, a: Flags, p: set<nat>, st: Flags, count: int, log: seq<nat>,
    q: set<nat>, st': Flags, count': int, log': seq<nat>, r: set<nat>)
    requires SweepInv(g, shown, a, p, st, count, log) && p !! q && r == p + q
    requires SweepInv(g, shown, st, q, st', count', log')
    ensures SweepInv(g, shown, a, r, st', count + count', log + log')
  {
    SweptCompose(g, a, p, st, q, st');
    ReportedAppend(shown, log, Garbage(a) * p, log', Garbage(a) * q);
    assert Garbage(a) * p + Garbage(a) * q == Garbage(a) * (p + q);
  }

  /**
   * Once every section has been swept, exactly the garbage is killed: a
   * section stays alive iff it was alive and visited.
   */
  lemma SweepInvAll(g: Graph, shown: bool, a: Flags, st: Flags, count: int, log: seq<nat>)
    requires WellFormed(g) && SweepInv(g, shown, a, SectionsOfFiles(g, |g.objs|), st, count, log)
    ensures forall i :: 0 <= i < |g.sections| ==> st.alive[i] == (a.alive[i] && a.visited[i])
    ensures st.visited == a.visited && st.frags == a.frags
    ensures count == |Garbage(a)| && Reported(shown, log, Garbage(a))
  {
    SectionsOfFilesAll(g);
    assert Garbage(a) * SectionsOfFiles(g, |g.objs|) == Garbage(a);
  }

  /** Sweeping slot `k` of file `f` extends a sweep of its first `k` slots. */
  lemma SweepSlotStep(
    g: Graph, shown: bool, a: Flags, f: nat, k: nat, st: Flags, count: int, log: seq<nat>,
    st': Flags, count': int, log': seq<nat>)
    requires WellFormed(g) && f < |g.objs| && k < |g.objs[f].sections|
    requires SweepInv(g, shown, a, SlotsIn(g, f, k), st, count, log)
    requires SweepInv(g, shown, st, OptionSet(g.objs[f].sections[k]), st', count', log')
    ensures SweepInv(g, shown, a, SlotsIn(g, f, k + 1), st', count + count', log + log')
  {
    SlotsInStep(g, f, k);
    SweepInvStep(g, shown, a, SlotsIn(g, f, k), st, count, log,
                 OptionSet(g.objs[f].sections[k]), st', count', log', SlotsIn(g, f, k + 1));
  }

  /** Sweeping every slot of file `f` extends a sweep of the files before it. */
  lemma SweepFileStep(
    g: Graph, shown: bool, a: Flags, f: nat, st: Flags, count: int, log: seq<nat>,
    st': Flags, count': int, log': seq<nat>)
    requires WellFormed(g) && f < |g.objs|
    requires SweepInv(g, shown, a, SectionsOfFiles(g, f), st, count, log)
    requires SweepInv(g, shown, st, SlotsIn(g, f, |g.objs[f].sections|), st', count', log')
    ensures SweepInv(g, shown, a, SectionsOfFiles(g, f + 1), st', count + count', log + log')
  {
    SectionsOfFilesStep(g, f);
    SweepInvStep(g, shown, a, SectionsOfFiles(g, f), st, count, log,
                 SlotsIn(g, f, |g.objs[f].sections|), st', count', log', SectionsOfFiles(g, f + 1));
  }
}
