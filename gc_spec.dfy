/**
 * What `gc_sections` as a whole does to the flags, as one function of the
 * flags it starts from, and what that guarantees: the roots and everything
 * reachable from them survive, non-SHF_ALLOC sections are never collected,
 * a section is removed only when nothing kept it, and no garbage is left
 * behind.
 */
module GcSpec {
  import opened Elf
  import opened LinkGraph
  import opened Reachability
  import opened RootSet
  import opened FragmentSpec
  import opened SweepSpec

  /**
   * The flags `gc_sections` leaves, from flags `a`: the visited sections
   * are those `collect_root_set` leaves visited and those reachable from
   * its roots; a section stays alive iff it was alive and is visited; the
   * alive fragments are the old ones, the non-SHF_ALLOC ones, the
   * requested ones and those a reachable section refers to.
   */
  ghost function Collected(g: Graph, cfg: Config, a: Flags): (b: Flags)
    requires WellFormed(g) && FlagsFit(g, a)
    ensures FlagsFit(g, b)
  {
    var pre := CollectedVisited(g, cfg, a);
    var rs := CollectedRoots(g, cfg, a);
    var visited := seq(|g.sections|, v requires 0 <= v < |g.sections| =>
      pre[v] || Reachable(g, a.alive, pre, rs, v));
    Flags(
      seq(|g.sections|, i requires 0 <= i < |g.sections| => a.alive[i] && visited[i]),
      visited,
      seq(|g.fragments|, f requires 0 <= f < |g.fragments| =>
        a.frags[f] || f in NonallocFragments(g, |g.objs|) || Frag(f) in RootRequests(g, cfg) ||
        ReachesFrag(g, a.alive, pre, rs, f)))
  }

  /** The sections a pass from `a` to `b` has killed. */
  ghost function Killed(a: Flags, b: Flags): set<nat> {
    set i: nat | i < |a.alive| && i < |b.alive| && a.alive[i] && !b.alive[i]
  }

  /**
   * A section is removed iff it was alive, SHF_ALLOC, not visited
   * beforehand, not requested as a root, and not reachable from the roots.
   */
  lemma KilledExactly(g: Graph, cfg: Config, a: Flags, i: nat)
    requires WellFormed(g) && FlagsFit(g, a) && i < |g.sections|
    ensures i in Killed(a, Collected(g, cfg, a)) <==>
      && a.alive[i] && !a.visited[i] && IsAlloc(g.sections[i].shFlags)
      && Sec(i) !in RootRequests(g, cfg)
      && !Reachable(g, a.alive, CollectedVisited(g, cfg, a), CollectedRoots(g, cfg, a), i)
  {
    var pre := CollectedVisited(g, cfg, a);
    assert pre[i] == (a.visited[i] || !IsAlloc(g.sections[i].shFlags) || (a.alive[i] && Sec(i) in RootRequests(g, cfg)));
  }

  /** Sections of non-SHF_ALLOC output, such as debug info, are never removed. */
  lemma NonallocKept(g: Graph, cfg: Config, a: Flags, i: nat)
    requires WellFormed(g) && FlagsFit(g, a) && i < |g.sections|
    requires !IsAlloc(g.sections[i].shFlags)
    ensures Collected(g, cfg, a).alive[i] == a.alive[i]
  {
    assert CollectedVisited(g, cfg, a)[i];
  }

  /** A requested section survives: it is visited by `collect_root_set`. */
  lemma RequestedKept(g: Graph, cfg: Config, a: Flags, i: nat)
    requires WellFormed(g) && FlagsFit(g, a) && i < |g.sections|
    requires Sec(i) in RootRequests(g, cfg)
    ensures Collected(g, cfg, a).alive[i] == a.alive[i]
  {
    assert CollectedVisited(g, cfg, a)[i] || !a.alive[i];
  }

  /** The init/fini-array, legacy init/fini and note sections survive. */
  lemma GcRootSectionKept(g: Graph, cfg: Config, a: Flags, i: nat)
    requires WellFormed(g) && FlagsFit(g, a) && i < |g.sections|
    requires IsGcRootSection(g.sections[i].shType, g.sections[i].name)
    ensures Collected(g, cfg, a).alive[i] == a.alive[i]
  {
    RootRequestsExact(g, cfg, Sec(i));
    RequestedKept(g, cfg, a, i);
  }

  /** The section the `--entry` symbol or an `--undefined` symbol resolves to survives. */
  lemma NamedSectionKept(g: Graph, cfg: Config, a: Flags, name: string, i: nat)
    requires WellFormed(g) && FlagsFit(g, a) && i < |g.sections|
    requires name == cfg.entry || name in cfg.undefined
    requires name in g.intern && g.symbols[g.intern[name]].target == Sec(i)
    ensures Collected(g, cfg, a).alive[i] == a.alive[i]
  {
    assert name in [cfg.entry] + cfg.undefined;
    RootRequestsExact(g, cfg, Sec(i));
    RequestedKept(g, cfg, a, i);
  }

  /** The section an exported symbol of its own file is defined in survives. */
  lemma ExportedSectionKept(g: Graph, cfg: Config, a: Flags, i: nat)
    requires WellFormed(g) && FlagsFit(g, a) && i < |g.sections|
    requires ExportedRoot(g, Sec(i))
    ensures Collected(g, cfg, a).alive[i] == a.alive[i]
  {
    RootRequestsExact(g, cfg, Sec(i));
    RequestedKept(g, cfg, a, i);
  }

  /**
   * Nothing a kept section needs is removed: an edge from a section
   * reachable from the roots leads to a section that survives, if it was
   * alive.
   */
  lemma ReachableTargetsKept(g: Graph, cfg: Config, a: Flags, u: nat, v: nat)
    requires WellFormed(g) && FlagsFit(g, a) && u < |g.sections| && v < |g.sections|
    requires Reachable(g, a.alive, CollectedVisited(g, cfg, a), CollectedRoots(g, cfg, a), u)
    requires Edge(g, u, v) && a.alive[v]
    ensures Collected(g, cfg, a).alive[v]
  {
    var pre := CollectedVisited(g, cfg, a);
    if !pre[v] {
      ReachableStep(g, a.alive, pre, CollectedRoots(g, cfg, a), u, v);
    }
  }

  /**
   * A section that is not requested as a root and that no section has an
   * edge to is removed, if it was alive, SHF_ALLOC and not visited. In
   * particular the first relocation of an FDE (its CIE backlink), which is
   * not an edge, keeps nothing alive.
   */
  lemma UnreferencedKilled(g: Graph, cfg: Config, a: Flags, v: nat)
    requires WellFormed(g) && FlagsFit(g, a) && v < |g.sections|
    requires a.alive[v] && !a.visited[v] && IsAlloc(g.sections[v].shFlags)
    requires Sec(v) !in RootRequests(g, cfg)
    requires forall u :: 0 <= u < |g.sections| ==> !Edge(g, u, v)
    ensures v in Killed(a, Collected(g, cfg, a))
  {
    var pre := CollectedVisited(g, cfg, a);
    var rs := CollectedRoots(g, cfg, a);
    SectionsOfFilesAll(g);
    var others := SectionsOfFiles(g, |g.objs|) - {v};
    assert Reachable(g, a.alive, pre, rs, v) ==> v in others by {
      if Reachable(g, a.alive, pre, rs, v) {
        ReachableLeast(g, a.alive, pre, rs, others, v);
      }
    }
    KilledExactly(g, cfg, a, v);
  }

  /** Every survivor is visited, so a later sweep would find no garbage. */
  lemma NoGarbageLeft(g: Graph, cfg: Config, a: Flags, i: nat)
    requires WellFormed(g) && FlagsFit(g, a) && i < |g.sections|
    requires Collected(g, cfg, a).alive[i]
    ensures Collected(g, cfg, a).visited[i]
  {
  }

  /** Collecting twice kills nothing more than collecting once. */
  lemma CollectedIdempotent(g: Graph, cfg: Config, a: Flags)
    requires WellFormed(g) && FlagsFit(g, a)
    ensures Collected(g, cfg, Collected(g, cfg, a)).alive == Collected(g, cfg, a).alive
  {
    var b := Collected(g, cfg, a);
    var c := Collected(g, cfg, b);
    forall i | 0 <= i < |g.sections| ensures c.alive[i] == b.alive[i] {
      if b.alive[i] {
        assert b.visited[i];
        assert CollectedVisited(g, cfg, b)[i];
      }
    }
  }

  /** The root list `collect_root_set` returns holds exactly `CollectedRoots`. */
  lemma RootsCollected(g: Graph, cfg: Config, a: Flags, roots: seq<nat>)
    requires WellFormed(g) && FlagsFit(g, a)
    requires forall j :: 0 <= j < |roots| ==> roots[j] < |g.sections|
    requires forall i :: 0 <= i < |g.sections| ==>
      (i in roots <==>
         a.alive[i] && !a.visited[i] && IsAlloc(g.sections[i].shFlags) && Sec(i) in RootRequests(g, cfg))
    ensures Elems(roots) == CollectedRoots(g, cfg, a)
  {
  }

  /** The visited flags `collect_root_set` leaves are `CollectedVisited`. */
  lemma VisitedCollected(g: Graph, cfg: Config, a: Flags, b: Flags)
    requires WellFormed(g) && FlagsFit(g, a) && FlagsFit(g, b)
    requires forall i :: 0 <= i < |g.sections| ==>
      b.visited[i] ==
        (a.visited[i] || !IsAlloc(g.sections[i].shFlags) || (a.alive[i] && Sec(i) in RootRequests(g, cfg)))
    ensures b.visited == CollectedVisited(g, cfg, a)
  {
  }

  /** `mark_nonalloc_fragments` took flags `a` to `b`. */
  ghost predicate NonallocPhase(g: Graph, a: Flags, b: Flags)
    requires WellFormed(g)
  {
    && FlagsFit(g, a) && FlagsFit(g, b)
    && b.alive == a.alive && b.visited == a.visited
    && forall j :: 0 <= j < |g.fragments| ==> b.frags[j] == (a.frags[j] || j in NonallocFragments(g, |g.objs|))
  }

  /** `collect_root_set` took flags `a` to `b` and returned the roots `rs`. */
  ghost predicate CollectPhase(g: Graph, cfg: Config, a: Flags, b: Flags, rs: set<nat>)
    requires WellFormed(g)
  {
    && FlagsFit(g, a) && FlagsFit(g, b)
    && b.alive == a.alive && b.visited == CollectedVisited(g, cfg, a) && rs == CollectedRoots(g, cfg, a)
    && forall j :: 0 <= j < |g.fragments| ==> b.frags[j] == (a.frags[j] || Frag(j) in RootRequests(g, cfg))
  }

  /** `mark` from the roots `rs` took flags `a` to `b`. */
  ghost predicate MarkPhase(g: Graph, a: Flags, rs: set<nat>, b: Flags)
    requires WellFormed(g)
  {
    && FlagsFit(g, a) && FlagsFit(g, b)
    && b.alive == a.alive
    && (forall v :: 0 <= v < |g.sections| ==> b.visited[v] == (a.visited[v] || Reachable(g, a.alive, a.visited, rs, v)))
    && forall j :: 0 <= j < |g.fragments| ==> b.frags[j] == (a.frags[j] || ReachesFrag(g, a.alive, a.visited, rs, j))
  }

  /** `sweep` took flags `a` to `b`. */
  ghost predicate SweepPhase(g: Graph, a: Flags, b: Flags) {
    && FlagsFit(g, a) && FlagsFit(g, b)
    && (forall i :: 0 <= i < |g.sections| ==> b.alive[i] == (a.alive[i] && a.visited[i]))
    && b.visited == a.visited && b.frags == a.frags
  }

  /**
   * The composition of the four phases: flags `a1` after
   * `mark_nonalloc_fragments`, `a2` after `collect_root_set` with root set
   * `rs`, `a3` after `mark`, and `b` after `sweep` are `Collected`, and the
   * sweep's garbage is exactly the sections killed.
   */
  lemma PhasesCompose(g: Graph, cfg: Config, a: Flags, a1: Flags, a2: Flags, rs: set<nat>, a3: Flags, b: Flags)
    requires WellFormed(g)
    requires NonallocPhase(g, a, a1) && CollectPhase(g, cfg, a1, a2, rs)
    requires MarkPhase(g, a2, rs, a3) && SweepPhase(g, a3, b)
    ensures b == Collected(g, cfg, a)
    ensures Killed(a, b) == Garbage(a3)
  {
    var c := Collected(g, cfg, a);
    assert b.visited == c.visited;
    assert b.alive == c.alive;
    assert b.frags == c.frags;
  }
}
