/**
 * The in-memory link graph the collector works on. Sections, symbols and
 * fragments live in index arenas; every pointer of the linker becomes an
 * index into one of them. The graph itself is read-only during the pass;
 * only the liveness flags (see `Flags`) change.
 */
module LinkGraph {
  import opened Wrappers
  import opened Elf

  /** What a symbol resolves to: a fragment, an input section, or nothing. */
  datatype Target = Frag(frag: nat) | Sec(sec: nat) | Unresolved

  datatype Symbol = Symbol(file: nat, isExported: bool, target: Target)

  /** An ordinary relocation; `rSym` indexes the owning file's symbol table. */
  datatype ElfRela = ElfRela(rSym: nat)

  /** An `.eh_frame` relocation; `sym` is a symbol id. */
  datatype EhReloc = EhReloc(sym: nat)

  /** An FDE; its first relocation points back at its CIE. */
  datatype FdeRecord = FdeRecord(rels: seq<EhReloc>)

  datatype CieRecord = CieRecord(rels: seq<EhReloc>)

  /**
   * An input section. `file` and `sectionIdx` give the slot that holds it
   * in its owning file's section list.
   */
  datatype InputSection = InputSection(
    file: nat,
    sectionIdx: nat,
    name: string,
    shType: nat,
    shFlags: bv64,
    rels: seq<ElfRela>,
    fdes: seq<FdeRecord>,
    relFragments: seq<nat>)

  /** A piece of merged data; what matters is its output section's flags. */
  datatype SectionFragment = SectionFragment(outputSectionFlags: bv64)

  /** An object file; `None` section slots are null pointers. */
  datatype ObjectFile = ObjectFile(
    sections: seq<Option<nat>>,
    symbols: seq<nat>,
    fragments: seq<nat>,
    cies: seq<CieRecord>)

  /** The global symbol table is `intern`, a partial map from names to symbol ids. */
  datatype Graph = Graph(
    sections: seq<InputSection>,
    symbols: seq<Symbol>,
    fragments: seq<SectionFragment>,
    objs: seq<ObjectFile>,
    intern: map<string, nat>)

  /** The command-line options the pass reads. */
  datatype Config = Config(entry: string, undefined: seq<string>, printGcSections: bool)

  ghost predicate TargetOk(g: Graph, t: Target) {
    match t
    case Frag(f) => f < |g.fragments|
    case Sec(s) => s < |g.sections|
    case Unresolved => true
  }

  ghost predicate EhRelsOk(g: Graph, rels: seq<EhReloc>) {
    forall j :: 0 <= j < |rels| ==> rels[j].sym < |g.symbols|
  }

  ghost predicate SectionOk(g: Graph, i: nat)
    requires i < |g.sections|
  {
    var s := g.sections[i];
    && s.file < |g.objs|
    && s.sectionIdx < |g.objs[s.file].sections|
    && g.objs[s.file].sections[s.sectionIdx] == Some(i)
    && (forall k :: 0 <= k < |s.rels| ==> s.rels[k].rSym < |g.objs[s.file].symbols|)
    && (forall d :: 0 <= d < |s.fdes| ==> |s.fdes[d].rels| > 0 && EhRelsOk(g, s.fdes[d].rels))
    && (forall j :: 0 <= j < |s.relFragments| ==> s.relFragments[j] < |g.fragments|)
  }

  ghost predicate FileOk(g: Graph, f: nat)
    requires f < |g.objs|
  {
    var o := g.objs[f];
    && (forall k :: 0 <= k < |o.sections| && o.sections[k].Some? ==>
          o.sections[k].value < |g.sections| &&
          g.sections[o.sections[k].value].file == f &&
          g.sections[o.sections[k].value].sectionIdx == k)
    && (forall k :: 0 <= k < |o.symbols| ==> o.symbols[k] < |g.symbols|)
    && (forall k :: 0 <= k < |o.fragments| ==> o.fragments[k] < |g.fragments|)
    && (forall c :: 0 <= c < |o.cies| ==> EhRelsOk(g, o.cies[c].rels))
  }

  /**
   * Every index points into its arena, and the file slots and the sections
   * are in one-to-one correspondence (a section is owned by exactly one file).
   */
  ghost predicate WellFormed(g: Graph) {
    && (forall i :: 0 <= i < |g.sections| ==> SectionOk(g, i))
    && (forall s :: 0 <= s < |g.symbols| ==> TargetOk(g, g.symbols[s].target))
    && (forall f :: 0 <= f < |g.objs| ==> FileOk(g, f))
    && (forall name :: name in g.intern ==> g.intern[name] < |g.symbols|)
  }

  /** A file's section slot holds a section id in range, or null. */
  lemma SlotInRange(g: Graph, f: nat, k: nat)
    requires WellFormed(g) && f < |g.objs| && k < |g.objs[f].sections|
    ensures g.objs[f].sections[k].Some? ==> g.objs[f].sections[k].value < |g.sections|
  {
    assert FileOk(g, f);
  }

  /** The section a symbol's `input_section` pointer designates, if any. */
  function InputSectionOf(t: Target): Option<nat> {
    if t.Sec? then Some(t.sec) else None
  }

  /** What relocation `k` of section `u` refers to, through `file.symbols[r_sym]`. */
  function RelTarget(g: Graph, u: nat, k: nat): (t: Target)
    requires WellFormed(g) && u < |g.sections| && k < |g.sections[u].rels|
    ensures TargetOk(g, t)
  {
    var s := g.sections[u];
    assert SectionOk(g, u) && FileOk(g, s.file);
    g.symbols[g.objs[s.file].symbols[s.rels[k].rSym]].target
  }

  /** The symbol-table lookups behind `RelTarget` stay in range. */
  lemma RelSymbolInRange(g: Graph, u: nat, k: nat)
    requires WellFormed(g) && u < |g.sections| && k < |g.sections[u].rels|
    ensures g.sections[u].file < |g.objs|
    ensures g.sections[u].rels[k].rSym < |g.objs[g.sections[u].file].symbols|
    ensures g.objs[g.sections[u].file].symbols[g.sections[u].rels[k].rSym] < |g.symbols|
  {
    assert SectionOk(g, u) && FileOk(g, g.sections[u].file);
  }

  function EhTarget(g: Graph, rel: EhReloc): (t: Target)
    requires WellFormed(g) && rel.sym < |g.symbols|
    ensures TargetOk(g, t)
  {
    g.symbols[rel.sym].target
  }

  /**
   * The edge relation of the collector: section `u` keeps section `v` if an
   * ordinary relocation of `u` resolves to `v`, or if a relocation of one of
   * `u`'s FDEs other than the first (the CIE backlink) resolves to `v`.
   */
  ghost predicate Edge(g: Graph, u: nat, v: nat)
    requires WellFormed(g) && u < |g.sections|
  {
    var s := g.sections[u];
    assert SectionOk(g, u);
    || (exists k :: 0 <= k < |s.rels| && RelTarget(g, u, k) == Sec(v))
    || (exists d, j :: 0 <= d < |s.fdes| && 1 <= j < |s.fdes[d].rels| &&
          EhTarget(g, s.fdes[d].rels[j]) == Sec(v))
  }

  /**
   * Some FDE relocation of `u` past the first, among those the `fdes` loop
   * of `visit` handles before position (`d`, `j`), resolves to section `v`.
   */
  ghost predicate FdeHit(g: Graph, u: nat, d: nat, j: nat, v: nat)
    requires WellFormed(g) && u < |g.sections|
  {
    var s := g.sections[u];
    assert SectionOk(g, u);
    exists d', j' :: 0 <= d' < |s.fdes| && 1 <= j' < |s.fdes[d'].rels| && (d' < d || (d' == d && j' < j)) &&
      EhTarget(g, s.fdes[d'].rels[j']) == Sec(v)
  }

  /** Handling relocation `j` of FDE `d` adds exactly its target to `FdeHit`. */
  lemma FdeHitNext(g: Graph, u: nat, d: nat, j: nat, v: nat)
    requires WellFormed(g) && u < |g.sections|
    requires d < |g.sections[u].fdes| && 1 <= j < |g.sections[u].fdes[d].rels|
    ensures SectionOk(g, u)
    ensures FdeHit(g, u, d, j + 1, v) <==> FdeHit(g, u, d, j, v) || EhTarget(g, g.sections[u].fdes[d].rels[j]) == Sec(v)
  {
    assert SectionOk(g, u);
    if EhTarget(g, g.sections[u].fdes[d].rels[j]) == Sec(v) {
      assert FdeHit(g, u, d, j + 1, v);
    }
  }

  /** Relocation 0 of an FDE is never counted, and the last one hands over to the next FDE. */
  lemma FdeHitBounds(g: Graph, u: nat, d: nat, v: nat)
    requires WellFormed(g) && u < |g.sections| && d < |g.sections[u].fdes|
    ensures FdeHit(g, u, d, 1, v) <==> FdeHit(g, u, d, 0, v)
    ensures FdeHit(g, u, d + 1, 0, v) <==> FdeHit(g, u, d, |g.sections[u].fdes[d].rels|, v)
  {
  }

  /** Over all FDEs, `FdeHit` is exactly the FDE half of `Edge`. */
  lemma FdeHitEdge(g: Graph, u: nat, v: nat)
    requires WellFormed(g) && u < |g.sections|
    ensures FdeHit(g, u, |g.sections[u].fdes|, 0, v) ==> Edge(g, u, v)
  {
  }

  /**
   * The visited flags `vis` at position (`d`, `j`) of the `fdes` loop of
   * `visit(u)`: those of `v0` plus every alive section an FDE relocation
   * handled so far resolves to.
   */
  ghost predicate FdeVisited(g: Graph, u: nat, alive: seq<bool>, v0: seq<bool>, vis: seq<bool>, d: nat, j: nat)
    requires WellFormed(g) && u < |g.sections|
  {
    && |alive| == |v0| == |vis| == |g.sections|
    && forall v :: 0 <= v < |g.sections| ==> vis[v] == (v0[v] || (alive[v] && FdeHit(g, u, d, j, v)))
  }

  /** Marking the target of relocation `j` of FDE `d` moves `FdeVisited` one position on. */
  lemma FdeVisitedNext(g: Graph, u: nat, alive: seq<bool>, v0: seq<bool>, vis: seq<bool>, vis': seq<bool>,
                       d: nat, j: nat, t: Target)
    requires WellFormed(g) && u < |g.sections| && FdeVisited(g, u, alive, v0, vis, d, j)
    requires d < |g.sections[u].fdes| && 1 <= j < |g.sections[u].fdes[d].rels|
    requires SectionOk(g, u) && t == EhTarget(g, g.sections[u].fdes[d].rels[j])
    requires vis' == if t.Sec? && alive[t.sec] then vis[t.sec := true] else vis
    ensures FdeVisited(g, u, alive, v0, vis', d, j + 1)
  {
    forall v | 0 <= v < |g.sections|
      ensures vis'[v] == (v0[v] || (alive[v] && FdeHit(g, u, d, j + 1, v)))
    {
      FdeHitNext(g, u, d, j, v);
    }
  }

  /** `FdeVisited` skips relocation 0 of FDE `d` and, after its last one, passes to FDE `d + 1`. */
  lemma FdeVisitedBounds(g: Graph, u: nat, alive: seq<bool>, v0: seq<bool>, vis: seq<bool>, d: nat)
    requires WellFormed(g) && u < |g.sections| && d < |g.sections[u].fdes|
    ensures FdeVisited(g, u, alive, v0, vis, d, 0) <==> FdeVisited(g, u, alive, v0, vis, d, 1)
    ensures FdeVisited(g, u, alive, v0, vis, d, |g.sections[u].fdes[d].rels|) <==>
            FdeVisited(g, u, alive, v0, vis, d + 1, 0)
  {
    forall v | 0 <= v < |g.sections| {
      FdeHitBounds(g, u, d, v);
    }
  }

  /** Section `u` refers to fragment `f` directly or through a symbol. */
  ghost predicate FragRef(g: Graph, u: nat, f: nat)
    requires WellFormed(g) && u < |g.sections|
  {
    || f in g.sections[u].relFragments
    || exists k :: 0 <= k < |g.sections[u].rels| && RelTarget(g, u, k) == Frag(f)
  }

  /** The sections a list holds, as a set. */
  ghost function Elems(r: seq<nat>): set<nat> {
    set x | x in r
  }

  /** A list of ids with no repeats. */
  ghost predicate Distinct(r: seq<nat>) {
    forall j, k :: 0 <= j < k < |r| ==> r[j] != r[k]
  }

  /** A snapshot of the mutable part of the graph. */
  datatype Flags = Flags(alive: seq<bool>, visited: seq<bool>, frags: seq<bool>)

  ghost predicate FlagsFit(g: Graph, st: Flags) {
    |st.alive| == |g.sections| && |st.visited| == |g.sections| && |st.frags| == |g.fragments|
  }

  /**
   * `b` is `a` with some more sections visited and some more fragments alive;
   * section liveness is untouched.
   */
  ghost predicate Grown(g: Graph, a: Flags, b: Flags) {
    && FlagsFit(g, a) && FlagsFit(g, b)
    && b.alive == a.alive
    && (forall i :: 0 <= i < |a.visited| && a.visited[i] ==> b.visited[i])
    && (forall f :: 0 <= f < |a.frags| && a.frags[f] ==> b.frags[f])
  }

  /** Target `t` of an ordinary relocation has been dealt with by `visit`. */
  ghost predicate RelDone(g: Graph, st: Flags, t: Target)
    requires FlagsFit(g, st) && TargetOk(g, t)
  {
    match t
    case Frag(f) => st.frags[f]
    case Sec(v) => !st.alive[v] || st.visited[v]
    case Unresolved => true
  }

  /** Target `t` of an FDE relocation has been dealt with by `visit`. */
  ghost predicate EhDone(g: Graph, st: Flags, t: Target)
    requires FlagsFit(g, st) && TargetOk(g, t)
  {
    t.Sec? ==> !st.alive[t.sec] || st.visited[t.sec]
  }

  ghost predicate FdeDone(g: Graph, st: Flags, fde: FdeRecord)
    requires WellFormed(g) && FlagsFit(g, st) && EhRelsOk(g, fde.rels)
  {
    forall j :: 1 <= j < |fde.rels| ==> EhDone(g, st, EhTarget(g, fde.rels[j]))
  }

  /**
   * Everything `visit(u)` touches is done: its fragments are alive, and every
   * alive section it has an edge to is visited.
   */
  ghost predicate Closed(g: Graph, st: Flags, u: nat)
    requires WellFormed(g) && FlagsFit(g, st) && u < |g.sections|
  {
    var s := g.sections[u];
    assert SectionOk(g, u);
    && (forall i :: 0 <= i < |s.relFragments| ==> st.frags[s.relFragments[i]])
    && (forall d :: 0 <= d < |s.fdes| ==> FdeDone(g, st, s.fdes[d]))
    && (forall k :: 0 <= k < |s.rels| ==> RelDone(g, st, RelTarget(g, u, k)))
  }

  /** Once closed, a section stays closed while flags only grow. */
  lemma ClosedGrown(g: Graph, a: Flags, b: Flags, u: nat)
    requires WellFormed(g) && Grown(g, a, b) && u < |g.sections| && Closed(g, a, u)
    ensures Closed(g, b, u)
  {
    var s := g.sections[u];
    assert SectionOk(g, u);
    forall d | 0 <= d < |s.fdes| ensures FdeDone(g, b, s.fdes[d]) {
      assert FdeDone(g, a, s.fdes[d]);
    }
    forall k | 0 <= k < |s.rels| ensures RelDone(g, b, RelTarget(g, u, k)) {
      assert RelDone(g, a, RelTarget(g, u, k));
    }
  }

  /** A closed section's edges lead only to dead or visited sections. */
  lemma ClosedEdge(g: Graph, st: Flags, u: nat, v: nat)
    requires WellFormed(g) && FlagsFit(g, st) && u < |g.sections| && Closed(g, st, u)
    requires Edge(g, u, v)
    ensures v < |g.sections| && (!st.alive[v] || st.visited[v])
  {
    var s := g.sections[u];
    assert SectionOk(g, u);
    if k :| 0 <= k < |s.rels| && RelTarget(g, u, k) == Sec(v) {
      assert RelDone(g, st, RelTarget(g, u, k));
    } else {
      var d, j :| 0 <= d < |s.fdes| && 1 <= j < |s.fdes[d].rels| &&
        EhTarget(g, s.fdes[d].rels[j]) == Sec(v);
      assert FdeDone(g, st, s.fdes[d]);
      assert EhDone(g, st, EhTarget(g, s.fdes[d].rels[j]));
    }
  }

  /** A closed section's fragments are all alive. */
  lemma ClosedFrag(g: Graph, st: Flags, u: nat, f: nat)
    requires WellFormed(g) && FlagsFit(g, st) && u < |g.sections| && Closed(g, st, u)
    requires FragRef(g, u, f)
    ensures f < |g.fragments| && st.frags[f]
  {
    var s := g.sections[u];
    assert SectionOk(g, u);
    if f in s.relFragments {
      var i :| 0 <= i < |s.relFragments| && s.relFragments[i] == f;
    } else {
      var k :| 0 <= k < |s.rels| && RelTarget(g, u, k) == Frag(f);
      assert RelDone(g, st, RelTarget(g, u, k));
    }
  }

  /** The sections held by slots 0..k-1 of file `f`. */
  ghost function SlotsIn(g: Graph, f: nat, k: nat): set<nat> {
    set i: nat | i < |g.sections| && g.sections[i].file == f && g.sections[i].sectionIdx < k
  }

  /** The sections owned by files 0..f-1. */
  ghost function SectionsOfFiles(g: Graph, f: nat): set<nat> {
    set i: nat | i < |g.sections| && g.sections[i].file < f
  }

  function OptionSet(o: Option<nat>): set<nat> {
    if o.Some? then {o.value} else {}
  }

  /** Walking one more slot of file `f` reaches exactly the section it holds, if any, and no section twice. */
  lemma SlotsInStep(g: Graph, f: nat, k: nat)
    requires WellFormed(g) && f < |g.objs| && k < |g.objs[f].sections|
    ensures SlotsIn(g, f, k + 1) == SlotsIn(g, f, k) + OptionSet(g.objs[f].sections[k])
    ensures g.objs[f].sections[k].Some? ==>
      g.objs[f].sections[k].value < |g.sections| && g.objs[f].sections[k].value !in SlotsIn(g, f, k)
    ensures SlotsIn(g, f, k) !! OptionSet(g.objs[f].sections[k])
  {
    assert FileOk(g, f);
    forall i | i in SlotsIn(g, f, k + 1) && i !in SlotsIn(g, f, k)
      ensures g.objs[f].sections[k] == Some(i)
    {
      assert SectionOk(g, i);
    }
  }

  /** Walking all slots of file `f` extends the files before it by file `f`'s sections. */
  lemma SectionsOfFilesStep(g: Graph, f: nat)
    requires WellFormed(g) && f < |g.objs|
    ensures SectionsOfFiles(g, f + 1) == SectionsOfFiles(g, f) + SlotsIn(g, f, |g.objs[f].sections|)
    ensures SectionsOfFiles(g, f) !! SlotsIn(g, f, |g.objs[f].sections|)
  {
    forall i | i in SectionsOfFiles(g, f + 1) && i !in SectionsOfFiles(g, f)
      ensures i in SlotsIn(g, f, |g.objs[f].sections|)
    {
      assert SectionOk(g, i);
    }
  }

  /** Every section sits in a slot of some file. */
  lemma SectionsOfFilesAll(g: Graph)
    requires WellFormed(g)
    ensures forall i: nat :: i < |g.sections| <==> i in SectionsOfFiles(g, |g.objs|)
  {
    forall i: nat | i < |g.sections| ensures i in SectionsOfFiles(g, |g.objs|) {
      assert SectionOk(g, i);
    }
  }
}
