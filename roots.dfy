/**
 * What `collect_root_set` asks for and what asking does. Every
 * `enqueue_section` / `enqueue_symbol` call is a request for a `Target`;
 * `Enqueued` relates the flags and the root list before and after a set of
 * requests, and composes, so each loop of the phase can be described by the
 * set of targets it requests. The request sets of the four phases are
 * defined by recursion over the lists `collect_root_set` walks, and each has a
 * lemma saying exactly which targets it holds.
 */
module RootSet {
  import opened Wrappers
  import opened Elf
  import opened LinkGraph

  /** `enqueue_section(isec)` requests the section, if the pointer is set. */
  function SectionRequest(sec: Option<nat>): set<Target> {
    if sec.Some? then {Sec(sec.value)} else {}
  }

  /** `enqueue_symbol(sym)` requests what a set symbol resolves to. */
  function SymbolRequest(g: Graph, sym: Option<nat>): set<Target>
    requires sym.Some? ==> sym.value < |g.symbols|
  {
    if sym.Some? then {g.symbols[sym.value].target} else {}
  }

  /** `Symbol::intern` on the global symbol table, which is partial here. */
  function Intern(g: Graph, name: string): (sym: Option<nat>)
    requires WellFormed(g)
    ensures sym.Some? <==> name in g.intern
    ensures sym.Some? ==> sym.value < |g.symbols| && sym.value == g.intern[name]
  {
    if name in g.intern then Some(g.intern[name]) else None
  }

  /**
   * From flags `a` and root list `ra`, serving the requests `reqs` gives
   * flags `b` and root list `rb`: each requested alive section becomes
   * visited, each requested fragment alive, and the requested alive
   * sections that were not visited are appended to the roots, once each.
   */
  ghost predicate Enqueued(g: Graph, a: Flags, ra: seq<nat>, reqs: set<Target>, b: Flags, rb: seq<nat>) {
    && FlagsFit(g, a) && FlagsFit(g, b) && b.alive == a.alive
    && (forall i :: 0 <= i < |b.visited| ==> b.visited[i] == (a.visited[i] || (Sec(i) in reqs && a.alive[i])))
    && (forall f :: 0 <= f < |b.frags| ==> b.frags[f] == (a.frags[f] || Frag(f) in reqs))
    && |ra| <= |rb| && rb[..|ra|] == ra
    && (forall j :: |ra| <= j < |rb| ==>
          rb[j] < |g.sections| && Sec(rb[j]) in reqs && a.alive[rb[j]] && !a.visited[rb[j]])
    && (forall j, k :: |ra| <= j < k < |rb| ==> rb[j] != rb[k])
    && (forall i :: 0 <= i < |a.visited| && Sec(i) in reqs && a.alive[i] && !a.visited[i] ==> i in rb)
  }

  /** Serving two request sets one after the other serves their union. */
  lemma EnqueuedCompose(
    g: Graph, a: Flags, ra: seq<nat>, r1: set<Target>, b: Flags, rb: seq<nat>,
    r2: set<Target>, c: Flags, rc: seq<nat>)
    requires Enqueued(g, a, ra, r1, b, rb) && Enqueued(g, b, rb, r2, c, rc)
    ensures Enqueued(g, a, ra, r1 + r2, c, rc)
  {
    assert rc[..|ra|] == rb[..|ra|] by {
      assert rc[..|rb|][..|ra|] == rc[..|ra|];
    }
    forall j | |ra| <= j < |rb| ensures rc[j] == rb[j] && b.visited[rb[j]] {
      assert rc[..|rb|][j] == rc[j];
    }
    forall i | 0 <= i < |a.visited| && Sec(i) in r1 + r2 && a.alive[i] && !a.visited[i]
      ensures i in rc
    {
      if i in rb {
        var j :| 0 <= j < |rb| && rb[j] == i;
        assert rc[..|rb|][j] == i;
      }
    }
  }

  /** Serving no request changes nothing. */
  lemma EnqueuedNothing(g: Graph, a: Flags, ra: seq<nat>)
    requires FlagsFit(g, a)
    ensures Enqueued(g, a, ra, {}, a, ra)
  {
    assert ra[..|ra|] == ra;
  }

  /** After serving requests, a distinct list of visited roots is still one. */
  lemma EnqueuedRoots(g: Graph, a: Flags, ra: seq<nat>, reqs: set<Target>, b: Flags, rb: seq<nat>)
    requires Enqueued(g, a, ra, reqs, b, rb) && Distinct(ra)
    requires forall j :: 0 <= j < |ra| ==> ra[j] < |g.sections| && a.visited[ra[j]]
    ensures Distinct(rb)
    ensures forall j :: 0 <= j < |rb| ==> rb[j] < |g.sections| && b.visited[rb[j]]
  {
    forall j | 0 <= j < |ra| ensures rb[j] == ra[j] {
      assert rb[..|ra|][j] == rb[j];
    }
  }

  /** The flags once the non-SHF_ALLOC sections among `p` are set visited. */
  ghost function PreVisit(g: Graph, a: Flags, p: set<nat>): (b: Flags)
    requires FlagsFit(g, a)
    ensures FlagsFit(g, b) && b.alive == a.alive && b.frags == a.frags
    ensures forall i :: 0 <= i < |g.sections| ==>
      b.visited[i] == (a.visited[i] || (i in p && !IsAlloc(g.sections[i].shFlags)))
  {
    a.(visited := seq(|g.sections|, i requires 0 <= i < |g.sections| =>
      a.visited[i] || (i in p && !IsAlloc(g.sections[i].shFlags))))
  }

  /**
   * Pre-visiting more sections `q`, none of them requested, commutes with
   * serving requests: it may be done before or after.
   */
  lemma PreVisitShift(
    g: Graph, a: Flags, p: set<nat>, ra: seq<nat>, reqs: set<Target>, b: Flags, rb: seq<nat>, q: set<nat>)
    requires FlagsFit(g, a)
    requires Enqueued(g, PreVisit(g, a, p), ra, reqs, b, rb)
    requires forall i :: i in q ==> Sec(i) !in reqs
    ensures Enqueued(g, PreVisit(g, a, p + q), ra, reqs, PreVisit(g, b, q), rb)
  {
  }

  /** The sections among `p` that are roots by their header: init/fini arrays and notes. */
  ghost function Candidates(g: Graph, p: set<nat>): set<Target> {
    set i | i in p && i < |g.sections| && IsGcRootSection(g.sections[i].shType, g.sections[i].name) :: Sec(i)
  }

  lemma CandidatesExact(g: Graph, p: set<nat>, t: Target)
    ensures t in Candidates(g, p) <==>
      t.Sec? && t.sec in p && t.sec < |g.sections| &&
      IsGcRootSection(g.sections[t.sec].shType, g.sections[t.sec].name)
  {
    if t.Sec? && t.sec in p && t.sec < |g.sections| &&
      IsGcRootSection(g.sections[t.sec].shType, g.sections[t.sec].name)
    {
      assert t == Sec(t.sec);
    }
  }

  lemma CandidatesUnion(g: Graph, p: set<nat>, q: set<nat>)
    ensures Candidates(g, p + q) == Candidates(g, p) + Candidates(g, q)
  {
    forall t | t in Candidates(g, p + q) ensures t in Candidates(g, p) + Candidates(g, q) {
      CandidatesExact(g, p + q, t);
      CandidatesExact(g, p, t);
      CandidatesExact(g, q, t);
    }
  }

  /** A single section is a candidate exactly when its header says so. */
  lemma CandidatesSingle(g: Graph, i: nat)
    requires i < |g.sections|
    ensures Candidates(g, {i}) ==
      if IsGcRootSection(g.sections[i].shType, g.sections[i].name) then {Sec(i)} else {}
  {
    forall t | t in Candidates(g, {i}) ensures t == Sec(i) {
      CandidatesExact(g, {i}, t);
    }
  }

  /** Sections outside `p` are not among its candidates. */
  lemma CandidatesOutside(g: Graph, p: set<nat>, q: set<nat>)
    requires p !! q
    ensures forall i :: i in q ==> Sec(i) !in Candidates(g, p)
  {
    forall i | i in q ensures Sec(i) !in Candidates(g, p) {
      CandidatesExact(g, p, Sec(i));
    }
  }

  /**
   * The whole of `collect_root_set`, from flags `a`: the non-SHF_ALLOC
   * sections are set visited, the requests `reqs` are served, and the
   * roots are exactly the requested sections that are alive, SHF_ALLOC and
   * were not visited, each once.
   */
  lemma CollectedExact(g: Graph, a: Flags, reqs: set<Target>, b: Flags, roots: seq<nat>)
    requires WellFormed(g) && FlagsFit(g, a)
    requires Enqueued(g, PreVisit(g, a, SectionsOfFiles(g, |g.objs|)), [], reqs, b, roots)
    ensures Distinct(roots)
    ensures forall j :: 0 <= j < |roots| ==> roots[j] < |g.sections| && b.visited[roots[j]]
    ensures forall i :: 0 <= i < |g.sections| ==>
      (i in roots <==> a.alive[i] && !a.visited[i] && IsAlloc(g.sections[i].shFlags) && Sec(i) in reqs)
    ensures forall i :: 0 <= i < |g.sections| ==>
      b.visited[i] == (a.visited[i] || !IsAlloc(g.sections[i].shFlags) || (a.alive[i] && Sec(i) in reqs))
    ensures forall f :: 0 <= f < |g.fragments| ==> b.frags[f] == (a.frags[f] || Frag(f) in reqs)
  {
    SectionsOfFilesAll(g);
    var pv := PreVisit(g, a, SectionsOfFiles(g, |g.objs|));
    EnqueuedRoots(g, pv, [], reqs, b, roots);
  }

  /** Symbol `syms[k]` of file `f` is owned by `f` and exported. */
  ghost predicate ExportedAt(g: Graph, f: nat, syms: seq<nat>, k: nat)
    requires forall k :: 0 <= k < |syms| ==> syms[k] < |g.symbols|
  {
    k < |syms| && g.symbols[syms[k]].file == f && g.symbols[syms[k]].isExported
  }

  /** What the exported-symbol loop requests for the symbol list `syms` of file `f`. */
  ghost function ExportedRequests(g: Graph, f: nat, syms: seq<nat>): set<Target>
    requires forall k :: 0 <= k < |syms| ==> syms[k] < |g.symbols|
    decreases |syms|
  {
    if syms == [] then {}
    else
      var k := |syms| - 1;
      ExportedRequests(g, f, syms[..k]) +
        (if ExportedAt(g, f, syms, k) then {g.symbols[syms[k]].target} else {})
  }

  /** The exported-symbol requests of files 0..n-1. */
  ghost function ExportedRoots(g: Graph, n: nat): set<Target>
    requires WellFormed(g) && n <= |g.objs|
  {
    if n == 0 then {}
    else
      assert FileOk(g, n - 1);
      ExportedRoots(g, n - 1) + ExportedRequests(g, n - 1, g.objs[n - 1].symbols)
  }

  /** What the named-symbol requests of `names` are (`--entry`, then `--undefined`). */
  ghost function NameRequests(g: Graph, names: seq<string>): set<Target>
    requires WellFormed(g)
    decreases |names|
  {
    if names == [] then {}
    else
      var k := |names| - 1;
      NameRequests(g, names[..k]) + SymbolRequest(g, Intern(g, names[k]))
  }

  /** The section an `.eh_frame` relocation's symbol lies in, as a request. */
  ghost function EhRequest(g: Graph, rel: EhReloc): set<Target>
    requires WellFormed(g) && rel.sym < |g.symbols|
  {
    SectionRequest(InputSectionOf(g.symbols[rel.sym].target))
  }

  /** What the CIE loop requests for the relocations `rels` of one CIE. */
  ghost function CieRelRequests(g: Graph, rels: seq<EhReloc>): set<Target>
    requires WellFormed(g) && EhRelsOk(g, rels)
    decreases |rels|
  {
    if rels == [] then {}
    else
      var j := |rels| - 1;
      CieRelRequests(g, rels[..j]) + EhRequest(g, rels[j])
  }

  /** What the CIE loop requests for the CIE list `cies` of one file. */
  ghost function CieRequests(g: Graph, cies: seq<CieRecord>): set<Target>
    requires WellFormed(g) && forall c :: 0 <= c < |cies| ==> EhRelsOk(g, cies[c].rels)
    decreases |cies|
  {
    if cies == [] then {}
    else
      var c := |cies| - 1;
      CieRequests(g, cies[..c]) + CieRelRequests(g, cies[c].rels)
  }

  /** The CIE requests of files 0..n-1. */
  ghost function CieRoots(g: Graph, n: nat): set<Target>
    requires WellFormed(g) && n <= |g.objs|
  {
    if n == 0 then {}
    else
      assert FileOk(g, n - 1);
      CieRoots(g, n - 1) + CieRequests(g, g.objs[n - 1].cies)
  }

  /** Everything `collect_root_set` requests, over its four phases. */
  ghost function RootRequests(g: Graph, cfg: Config): set<Target>
    requires WellFormed(g)
  {
    Candidates(g, SectionsOfFiles(g, |g.objs|))
      + ExportedRoots(g, |g.objs|)
      + NameRequests(g, [cfg.entry] + cfg.undefined)
      + CieRoots(g, |g.objs|)
  }

  /** The exported-symbol loop over `syms` requests exactly the targets of the owned, exported ones. */
  lemma {:induction false} ExportedRequestsExact(g: Graph, f: nat, syms: seq<nat>, t: Target)
    requires forall k :: 0 <= k < |syms| ==> syms[k] < |g.symbols|
    ensures t in ExportedRequests(g, f, syms) <==>
      exists k :: 0 <= k < |syms| && ExportedAt(g, f, syms, k) && g.symbols[syms[k]].target == t
    decreases |syms|
  {
    if syms != [] {
      var m := |syms| - 1;
      var pre := syms[..m];
      ExportedRequestsExact(g, f, pre, t);
      assert forall k :: 0 <= k < m ==> pre[k] == syms[k];
      if exists k :: 0 <= k < |syms| && ExportedAt(g, f, syms, k) && g.symbols[syms[k]].target == t {
        var k :| 0 <= k < |syms| && ExportedAt(g, f, syms, k) && g.symbols[syms[k]].target == t;
        if k < m {
          assert ExportedAt(g, f, pre, k);
        }
      }
    }
  }

  /** Entry `k` of file `f`'s symbol list. */
  ghost function FileSymbol(g: Graph, f: nat, k: nat): Symbol
    requires WellFormed(g) && f < |g.objs| && k < |g.objs[f].symbols|
  {
    assert FileOk(g, f);
    g.symbols[g.objs[f].symbols[k]]
  }

  /** The symbol of relocation `j` of CIE `c` of file `f`. */
  ghost function CieSymbol(g: Graph, f: nat, c: nat, j: nat): Symbol
    requires WellFormed(g) && f < |g.objs| && c < |g.objs[f].cies| && j < |g.objs[f].cies[c].rels|
  {
    assert FileOk(g, f) && EhRelsOk(g, g.objs[f].cies[c].rels);
    g.symbols[g.objs[f].cies[c].rels[j].sym]
  }

  /** `t` is what a symbol of some file's list, owned and exported by that file, resolves to. */
  ghost predicate ExportedRoot(g: Graph, t: Target)
    requires WellFormed(g)
  {
    exists f, k :: 0 <= f < |g.objs| && 0 <= k < |g.objs[f].symbols| &&
      FileSymbol(g, f, k).file == f && FileSymbol(g, f, k).isExported && FileSymbol(g, f, k).target == t
  }

  /** Files 0..n-1 request exactly the targets of the symbols they own and export. */
  lemma {:induction false} ExportedRootsExact(g: Graph, n: nat, t: Target)
    requires WellFormed(g) && n <= |g.objs|
    ensures t in ExportedRoots(g, n) <==>
      exists f, k :: 0 <= f < n && 0 <= k < |g.objs[f].symbols| &&
        FileSymbol(g, f, k).file == f && FileSymbol(g, f, k).isExported && FileSymbol(g, f, k).target == t
  {
    if n > 0 {
      var f := n - 1;
      var syms := g.objs[f].symbols;
      ExportedRootsExact(g, f, t);
      assert FileOk(g, f);
      ExportedRequestsExact(g, f, syms, t);
      assert forall k :: 0 <= k < |syms| ==> FileSymbol(g, f, k) == g.symbols[syms[k]];
      if exists k :: 0 <= k < |syms| && ExportedAt(g, f, syms, k) && g.symbols[syms[k]].target == t {
        var k :| 0 <= k < |syms| && ExportedAt(g, f, syms, k) && g.symbols[syms[k]].target == t;
        assert FileSymbol(g, f, k).file == f && FileSymbol(g, f, k).isExported && FileSymbol(g, f, k).target == t;
      }
      if exists f', k :: 0 <= f' < n && 0 <= k < |g.objs[f'].symbols| &&
          FileSymbol(g, f', k).file == f' && FileSymbol(g, f', k).isExported && FileSymbol(g, f', k).target == t
      {
        var f', k :| 0 <= f' < n && 0 <= k < |g.objs[f'].symbols| &&
          FileSymbol(g, f', k).file == f' && FileSymbol(g, f', k).isExported && FileSymbol(g, f', k).target == t;
        if f' == f {
          assert ExportedAt(g, f, syms, k);
        }
      }
    }
  }

  /** The names `names` request exactly the targets of those the symbol table knows. */
  lemma {:induction false} NameRequestsExact(g: Graph, names: seq<string>, t: Target)
    requires WellFormed(g)
    ensures t in NameRequests(g, names) <==>
      exists k :: 0 <= k < |names| && names[k] in g.intern && g.symbols[g.intern[names[k]]].target == t
    decreases |names|
  {
    if names != [] {
      var m := |names| - 1;
      var pre := names[..m];
      NameRequestsExact(g, pre, t);
      assert forall k :: 0 <= k < m ==> pre[k] == names[k];
    }
  }

  /** One CIE's relocations request exactly the sections their symbols lie in. */
  lemma {:induction false} CieRelRequestsExact(g: Graph, rels: seq<EhReloc>, t: Target)
    requires WellFormed(g) && EhRelsOk(g, rels)
    ensures t in CieRelRequests(g, rels) <==>
      t.Sec? && exists j :: 0 <= j < |rels| && g.symbols[rels[j].sym].target == t
    decreases |rels|
  {
    if rels != [] {
      var m := |rels| - 1;
      var pre := rels[..m];
      CieRelRequestsExact(g, pre, t);
      assert forall j :: 0 <= j < m ==> pre[j] == rels[j];
    }
  }

  /** A file's CIEs request exactly the sections their relocations' symbols lie in. */
  lemma {:induction false} CieRequestsExact(g: Graph, cies: seq<CieRecord>, t: Target)
    requires WellFormed(g) && forall c :: 0 <= c < |cies| ==> EhRelsOk(g, cies[c].rels)
    ensures t in CieRequests(g, cies) <==>
      t.Sec? &&
      exists c, j ::
        0 <= c < |cies| && 0 <= j < |cies[c].rels| && g.symbols[cies[c].rels[j].sym].target == t
    decreases |cies|
  {
    if cies != [] {
      var m := |cies| - 1;
      var pre := cies[..m];
      CieRequestsExact(g, pre, t);
      CieRelRequestsExact(g, cies[m].rels, t);
      assert forall c :: 0 <= c < m ==> pre[c] == cies[c];
    }
  }

  /** `t` is what the symbol of some CIE relocation of files 0..n-1 resolves to. */
  ghost predicate CieRootIn(g: Graph, n: nat, t: Target)
    requires WellFormed(g) && n <= |g.objs|
  {
    exists f, c, j ::
      0 <= f < n && 0 <= c < |g.objs[f].cies| && 0 <= j < |g.objs[f].cies[c].rels| &&
      CieSymbol(g, f, c, j).target == t
  }

  /** Files 0..n-1 request exactly the sections their CIEs' relocations point into. */
  lemma {:induction false} CieRootsExact(g: Graph, n: nat, t: Target)
    requires WellFormed(g) && n <= |g.objs|
    ensures t in CieRoots(g, n) <==>
      t.Sec? && CieRootIn(g, n, t)
  {
    if n > 0 {
      var f := n - 1;
      var cies := g.objs[f].cies;
      CieRootsExact(g, f, t);
      assert FileOk(g, f);
      CieRequestsExact(g, cies, t);
      if exists c, j :: 0 <= c < |cies| && 0 <= j < |cies[c].rels| && g.symbols[cies[c].rels[j].sym].target == t {
        var c, j :| 0 <= c < |cies| && 0 <= j < |cies[c].rels| && g.symbols[cies[c].rels[j].sym].target == t;
        assert CieSymbol(g, f, c, j).target == t;
      }
      if CieRootIn(g, n, t) {
        var f', c, j :| 0 <= f' < n && 0 <= c < |g.objs[f'].cies| &&
          0 <= j < |g.objs[f'].cies[c].rels| && CieSymbol(g, f', c, j).target == t;
        if f' < f {
          assert CieRootIn(g, f, t);
        } else {
          assert g.symbols[cies[c].rels[j].sym].target == t;
        }
      }
    }
  }

  /**
   * The root requests are exactly: the init/fini-array, legacy init/fini
   * and note sections; what the symbols their files own and export resolve
   * to; what the `--entry` and `--undefined` symbols resolve to; and the
   * sections the CIE relocations point into.
   */
  lemma RootRequestsExact(g: Graph, cfg: Config, t: Target)
    requires WellFormed(g)
    ensures t in RootRequests(g, cfg) <==>
      || (t.Sec? && t.sec < |g.sections| && IsGcRootSection(g.sections[t.sec].shType, g.sections[t.sec].name))
      || ExportedRoot(g, t)
      || (exists name :: name in [cfg.entry] + cfg.undefined && name in g.intern &&
            g.symbols[g.intern[name]].target == t)
      || (t.Sec? && CieRootIn(g, |g.objs|, t))
  {
    SectionsOfFilesAll(g);
    CandidatesExact(g, SectionsOfFiles(g, |g.objs|), t);
    ExportedRootsExact(g, |g.objs|, t);
    var names := [cfg.entry] + cfg.undefined;
    NameRequestsExact(g, names, t);
    if exists name :: name in names && name in g.intern && g.symbols[g.intern[name]].target == t {
      var name :| name in names && name in g.intern && g.symbols[g.intern[name]].target == t;
      var k :| 0 <= k < |names| && names[k] == name;
    }
    CieRootsExact(g, |g.objs|, t);
  }

  /** The visited flags `collect_root_set` leaves, from flags `a`. */
  ghost function CollectedVisited(g: Graph, cfg: Config, a: Flags): (v: seq<bool>)
    requires WellFormed(g) && FlagsFit(g, a)
    ensures |v| == |g.sections|
  {
    seq(|g.sections|, i requires 0 <= i < |g.sections| =>
      a.visited[i] || !IsAlloc(g.sections[i].shFlags) || (a.alive[i] && Sec(i) in RootRequests(g, cfg)))
  }

  /** The root set `collect_root_set` returns, from flags `a`. */
  ghost function CollectedRoots(g: Graph, cfg: Config, a: Flags): set<nat>
    requires WellFormed(g) && FlagsFit(g, a)
  {
    set i: nat | i < |g.sections| && a.alive[i] && !a.visited[i] &&
      IsAlloc(g.sections[i].shFlags) && Sec(i) in RootRequests(g, cfg)
  }
}
