/**
 * Small concrete links and what `gc_sections` does to them, derived from
 * `Collected` and the lemmas about it.
 *
 * `Small` is one object file with five sections:
 *   0 `.text.main`   the `--entry` symbol `main` lies in; one relocation to `helper`
 *   1 `.text.helper` refers to fragment 0 (a merged string)
 *   2 `.text.dead`   nothing refers to it
 *   3 `.debug_info`  not SHF_ALLOC, nothing refers to it
 *   4 `.text.keepme` the `--undefined` symbol `keepme` lies in
 * and two fragments: 0, in an SHF_ALLOC output section, and 1, in a
 * non-SHF_ALLOC one that nothing refers to.
 *
 * `WithFde` is one object file with three sections:
 *   0 `.text.f`    the `--entry` symbol `f` lies in; one FDE whose
 *                  relocations point at section 1 (the CIE backlink) and 2
 *   1 `.text.cie`  only the FDE's first relocation points at it
 *   2 `.text.lsda` the FDE's second relocation points at it
 */
module Scenarios {
  import opened Wrappers
  import opened Elf
  import opened LinkGraph
  import opened Reachability
  import opened RootSet
  import opened FragmentSpec
  import opened GcSpec

  const SHT_PROGBITS: nat := 1
  /** SHF_ALLOC | SHF_EXECINSTR */
  const TextFlags: bv64 := 0x6

  function Text(idx: nat, name: string, rels: seq<ElfRela>, fdes: seq<FdeRecord>, frags: seq<nat>): InputSection {
    InputSection(0, idx, name, SHT_PROGBITS, TextFlags, rels, fdes, frags)
  }

  function Small(): (g: Graph)
    ensures WellFormed(g)
  {
    var g := Graph(
    [ Text(0, ".text.main", [ElfRela(0)], [], []),
      Text(1, ".text.helper", [], [], [0]),
      Text(2, ".text.dead", [], [], []),
      InputSection(0, 3, ".debug_info", SHT_PROGBITS, 0, [], [], []),
      Text(4, ".text.keepme", [], [], []) ],
    [ Symbol(0, false, Sec(1)),     // helper
      Symbol(0, false, Sec(0)),     // main
      Symbol(0, false, Sec(4)) ],   // keepme
    [ SectionFragment(0x2), SectionFragment(0) ],
    [ ObjectFile([Some(0), Some(1), Some(2), Some(3), Some(4)], [0, 1, 2], [0, 1], []) ],
    map["helper" := 0, "main" := 1, "keepme" := 2]);
    assert forall i :: 0 <= i < |g.sections| ==> SectionOk(g, i) by {
      forall i | 0 <= i < |g.sections| ensures SectionOk(g, i) {
        assert g.objs[0].sections[g.sections[i].sectionIdx] == Some(i);
      }
    }
    assert FileOk(g, 0);
    g
  }

  const SmallConfig: Config := Config("main", ["keepme", "missing"], true)

  /** Every section alive and unvisited, every fragment dead: the flags before the pass. */
  const SmallStart: Flags := Flags([true, true, true, true, true], [false, false, false, false, false], [false, false])

  /** The first characters a legacy init/fini name starts with. */
  lemma LegacyPrefixChars(name: string)
    ensures StartsWith(name, ".ctors") ==> |name| >= 2 && name[1] == 'c'
    ensures StartsWith(name, ".init") ==> |name| >= 2 && name[1] == 'i'
    ensures StartsWith(name, ".fini") ==> |name| >= 2 && name[1] == 'f'
    ensures StartsWith(name, ".dtors") ==> |name| >= 3 && name[1] == 'd' && name[2] == 't'
  {
  }

  /** No section of `Small` is an init/fini or note section. */
  lemma SmallNoHeaderRoots(i: nat)
    requires i < |Small().sections|
    ensures !IsGcRootSection(Small().sections[i].shType, Small().sections[i].name)
  {
    LegacyPrefixChars(Small().sections[i].name);
  }

  /** `Small` exports no symbol. */
  lemma SmallNoExported(t: Target)
    ensures !ExportedRoot(Small(), t)
  {
    var g := Small();
    forall f, k | 0 <= f < |g.objs| && 0 <= k < |g.objs[f].symbols|
      ensures !FileSymbol(g, f, k).isExported
    {
    }
  }

  /** `main` and `keepme` lie in sections 0 and 4; `missing` is not a symbol. */
  lemma SmallNamed(t: Target)
    ensures (exists name :: name in [SmallConfig.entry] + SmallConfig.undefined && name in Small().intern &&
               Small().symbols[Small().intern[name]].target == t)
      <==> t == Sec(0) || t == Sec(4)
  {
    var g := Small();
    var names := [SmallConfig.entry] + SmallConfig.undefined;
    assert names == ["main", "keepme", "missing"];
    assert "missing" !in g.intern;
    assert g.symbols[g.intern["main"]].target == Sec(0);
    assert g.symbols[g.intern["keepme"]].target == Sec(4);
  }

  /** What `collect_root_set` requests in `Small`: `main`, `keepme`, and nothing else. */
  lemma SmallRequests(t: Target)
    ensures t in RootRequests(Small(), SmallConfig) <==> t == Sec(0) || t == Sec(4)
  {
    var g, cfg := Small(), SmallConfig;
    RootRequestsExact(g, cfg, t);
    if t.Sec? && t.sec < |g.sections| {
      SmallNoHeaderRoots(t.sec);
    }
    SmallNoExported(t);
    SmallNamed(t);
    assert !CieRootIn(g, |g.objs|, t);
  }

  /** `collect_root_set` on `Small` visits `main`, `.debug_info` and `keepme`. */
  lemma SmallVisited()
    ensures CollectedVisited(Small(), SmallConfig, SmallStart) == [true, false, false, true, true]
  {
    var g, cfg, a := Small(), SmallConfig, SmallStart;
    forall t ensures t in RootRequests(g, cfg) <==> t == Sec(0) || t == Sec(4) {
      SmallRequests(t);
    }
  }

  /** The roots of `Small` are `main` and `keepme`; `.debug_info` is pre-visited, not a root. */
  lemma SmallRoots()
    ensures CollectedRoots(Small(), SmallConfig, SmallStart) == {0, 4}
  {
    var g, cfg, a := Small(), SmallConfig, SmallStart;
    forall t ensures t in RootRequests(g, cfg) <==> t == Sec(0) || t == Sec(4) {
      SmallRequests(t);
    }
  }

  /** The only edge of `Small` is `main` to `helper`. */
  lemma SmallEdges(u: nat, v: nat)
    requires u < |Small().sections|
    ensures Edge(Small(), u, v) <==> u == 0 && v == 1
  {
    var g := Small();
    if u == 0 {
      assert RelTarget(g, 0, 0) == Sec(1);
    }
  }

  /** `helper` is reachable in `Small`, from the root `main`. */
  lemma SmallHelperReached()
    ensures Reachable(Small(), SmallStart.alive, CollectedVisited(Small(), SmallConfig, SmallStart),
                      CollectedRoots(Small(), SmallConfig, SmallStart), 1)
  {
    var g, a := Small(), SmallStart;
    SmallVisited();
    SmallRoots();
    var pre, rs := [true, false, false, true, true], {0, 4};
    SmallEdges(0, 1);
    ReachableRoot(g, a.alive, pre, rs, 0);
    ReachableStep(g, a.alive, pre, rs, 0, 1);
  }

  /** Section `i` of `Small` is removed iff it is `.text.dead`. */
  lemma SmallKilledAt(i: nat)
    requires i < 5
    ensures i in Killed(SmallStart, Collected(Small(), SmallConfig, SmallStart)) <==> i == 2
  {
    var g, cfg, a := Small(), SmallConfig, SmallStart;
    SmallVisited();
    KilledExactly(g, cfg, a, i);
    SmallRequests(Sec(i));
    if i == 1 {
      SmallHelperReached();
    } else if i == 2 {
      forall u | 0 <= u < |g.sections| ensures !Edge(g, u, 2) {
        SmallEdges(u, 2);
      }
      UnreferencedKilled(g, cfg, a, 2);
    }
  }

  /**
   * In `Small`, `gc_sections` removes `.text.dead` and nothing else:
   * `main` (the entry), `helper` (reached from `main`), `keepme` (an
   * `--undefined` name) and `.debug_info` (not SHF_ALLOC) survive, and the
   * name `missing`, which resolves to nothing, adds no root.
   */
  lemma SmallKilled()
    ensures Killed(SmallStart, Collected(Small(), SmallConfig, SmallStart)) == {2}
  {
    var killed := Killed(SmallStart, Collected(Small(), SmallConfig, SmallStart));
    forall i | i in killed ensures i == 2 {
      SmallKilledAt(i);
    }
    SmallKilledAt(2);
  }

  /** The liveness `Small` ends with: every section but `.text.dead`. */
  lemma SmallAlive()
    ensures Collected(Small(), SmallConfig, SmallStart).alive == [true, true, false, true, true]
  {
    forall i | 0 <= i < 5 ensures Collected(Small(), SmallConfig, SmallStart).alive[i] == (i != 2) {
      SmallKilledAt(i);
    }
  }

  /** Fragment 0 of `Small` is referenced by the reachable `helper`. */
  lemma SmallFragmentReached()
    ensures ReachesFrag(Small(), SmallStart.alive, CollectedVisited(Small(), SmallConfig, SmallStart),
                        CollectedRoots(Small(), SmallConfig, SmallStart), 0)
  {
    SmallHelperReached();
    assert FragRef(Small(), 1, 0);
  }

  /** Fragment 1 of `Small` lies in a non-SHF_ALLOC output section. */
  lemma SmallFragmentNonalloc()
    ensures 1 in NonallocFragments(Small(), |Small().objs|)
  {
    var g := Small();
    NonallocFragmentsExact(g, |g.objs|, 1);
    assert g.objs[0].fragments[1] == 1;
  }

  /**
   * In `Small`, fragment 0, which the reachable `helper` refers to, and
   * fragment 1, whose output section is not SHF_ALLOC, end alive.
   */
  lemma SmallFragments()
    ensures Collected(Small(), SmallConfig, SmallStart).frags == [true, true]
  {
    SmallFragmentReached();
    SmallFragmentNonalloc();
  }

  function WithFde(): (g: Graph)
    ensures WellFormed(g)
  {
    var g := Graph(
    [ Text(0, ".text.f", [], [FdeRecord([EhReloc(1), EhReloc(2)])], []),
      Text(1, ".text.cie", [], [], []),
      Text(2, ".text.lsda", [], [], []) ],
    [ Symbol(0, false, Sec(0)),     // f
      Symbol(0, false, Sec(1)),     // the CIE backlink's target
      Symbol(0, false, Sec(2)) ],   // the LSDA
    [],
    [ ObjectFile([Some(0), Some(1), Some(2)], [0, 1, 2], [], []) ],
    map["f" := 0]);
    assert forall i :: 0 <= i < |g.sections| ==> SectionOk(g, i) by {
      forall i | 0 <= i < |g.sections| ensures SectionOk(g, i) {
        assert g.objs[0].sections[g.sections[i].sectionIdx] == Some(i);
      }
    }
    assert FileOk(g, 0);
    g
  }

  const WithFdeConfig: Config := Config("f", [], false)

  const WithFdeStart: Flags := Flags([true, true, true], [false, false, false], [])

  /** What `collect_root_set` requests in `WithFde`: `f` alone. */
  lemma WithFdeRequests(t: Target)
    ensures t in RootRequests(WithFde(), WithFdeConfig) <==> t == Sec(0)
  {
    var g, cfg := WithFde(), WithFdeConfig;
    RootRequestsExact(g, cfg, t);
    if t.Sec? && t.sec < |g.sections| {
      LegacyPrefixChars(g.sections[t.sec].name);
    }
    assert !ExportedRoot(g, t) by {
      forall f, k | 0 <= f < |g.objs| && 0 <= k < |g.objs[f].symbols|
        ensures !FileSymbol(g, f, k).isExported
      {
      }
    }
    assert !CieRootIn(g, |g.objs|, t);
    assert [cfg.entry] + cfg.undefined == ["f"];
  }

  /**
   * The only edge of `WithFde` is `.text.f` to `.text.lsda`, through the
   * FDE's second relocation; its first relocation is no edge.
   */
  lemma WithFdeEdges(u: nat, v: nat)
    requires u < |WithFde().sections|
    ensures Edge(WithFde(), u, v) <==> u == 0 && v == 2
  {
    var g := WithFde();
    if u == 0 {
      var s := g.sections[0];
      assert EhTarget(g, s.fdes[0].rels[1]) == Sec(2);
    }
  }

  /** `collect_root_set` on `WithFde` visits `.text.f` alone. */
  lemma WithFdeVisited()
    ensures CollectedVisited(WithFde(), WithFdeConfig, WithFdeStart) == [true, false, false]
  {
    forall t ensures t in RootRequests(WithFde(), WithFdeConfig) <==> t == Sec(0) {
      WithFdeRequests(t);
    }
  }

  /** The one root of `WithFde` is `.text.f`. */
  lemma WithFdeRoots()
    ensures CollectedRoots(WithFde(), WithFdeConfig, WithFdeStart) == {0}
  {
    forall t ensures t in RootRequests(WithFde(), WithFdeConfig) <==> t == Sec(0) {
      WithFdeRequests(t);
    }
  }

  /** `.text.lsda` is reachable in `WithFde`, from the root `.text.f`. */
  lemma WithFdeLsdaReached()
    ensures Reachable(WithFde(), WithFdeStart.alive, CollectedVisited(WithFde(), WithFdeConfig, WithFdeStart),
                      CollectedRoots(WithFde(), WithFdeConfig, WithFdeStart), 2)
  {
    var g, a := WithFde(), WithFdeStart;
    WithFdeVisited();
    WithFdeRoots();
    var pre, rs := [true, false, false], {0};
    WithFdeEdges(0, 2);
    ReachableRoot(g, a.alive, pre, rs, 0);
    ReachableStep(g, a.alive, pre, rs, 0, 2);
  }

  /** Section `i` of `WithFde` is removed iff it is `.text.cie`. */
  lemma WithFdeKilledAt(i: nat)
    requires i < 3
    ensures i in Killed(WithFdeStart, Collected(WithFde(), WithFdeConfig, WithFdeStart)) <==> i == 1
  {
    var g, cfg, a := WithFde(), WithFdeConfig, WithFdeStart;
    WithFdeVisited();
    KilledExactly(g, cfg, a, i);
    WithFdeRequests(Sec(i));
    if i == 2 {
      WithFdeLsdaReached();
    } else if i == 1 {
      forall u | 0 <= u < |g.sections| ensures !Edge(g, u, 1) {
        WithFdeEdges(u, 1);
      }
      UnreferencedKilled(g, cfg, a, 1);
    }
  }

  /**
   * In `WithFde`, the FDE of the kept `.text.f` keeps `.text.lsda` through
   * its second relocation, while its first relocation, the CIE backlink,
   * keeps nothing: `.text.cie` is removed, and only it.
   */
  lemma WithFdeKilled()
    ensures Killed(WithFdeStart, Collected(WithFde(), WithFdeConfig, WithFdeStart)) == {1}
  {
    var killed := Killed(WithFdeStart, Collected(WithFde(), WithFdeConfig, WithFdeStart));
    forall i | i in killed ensures i == 1 {
      WithFdeKilledAt(i);
    }
    WithFdeKilledAt(1);
  }
}
