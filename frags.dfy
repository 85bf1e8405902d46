/**
 * The fragments `mark_nonalloc_fragments` keeps: those listed by some file
 * whose output section is not SHF_ALLOC, and so is never collected.
 */
module FragmentSpec {
  import opened Elf
  import opened LinkGraph

  /** The fragments among `ids` whose output section is not SHF_ALLOC (prefix recursion). */
  ghost function NonallocIn(g: Graph, ids: seq<nat>): set<nat>
    requires forall k :: 0 <= k < |ids| ==> ids[k] < |g.fragments|
    decreases |ids|
  {
    if ids == [] then {}
    else
      var k := |ids| - 1;
      NonallocIn(g, ids[..k]) +
        (if !IsAlloc(g.fragments[ids[k]].outputSectionFlags) then {ids[k]} else {})
  }

  /** The non-SHF_ALLOC fragments listed by files 0..n-1. */
  ghost function NonallocFragments(g: Graph, n: nat): set<nat>
    requires WellFormed(g) && n <= |g.objs|
  {
    if n == 0 then {}
    else
      assert FileOk(g, n - 1);
      NonallocFragments(g, n - 1) + NonallocIn(g, g.objs[n - 1].fragments)
  }

  lemma {:induction false} NonallocInExact(g: Graph, ids: seq<nat>, j: nat)
    requires forall k :: 0 <= k < |ids| ==> ids[k] < |g.fragments|
    ensures j in NonallocIn(g, ids) <==>
      j < |g.fragments| && !IsAlloc(g.fragments[j].outputSectionFlags) && j in ids
    decreases |ids|
  {
    if ids != [] {
      var m := |ids| - 1;
      NonallocInExact(g, ids[..m], j);
      assert ids == ids[..m] + [ids[m]];
    }
  }

  /**
   * Files 0..n-1 keep exactly the fragments one of them lists whose output
   * section is not SHF_ALLOC.
   */
  lemma {:induction false} NonallocFragmentsExact(g: Graph, n: nat, j: nat)
    requires WellFormed(g) && n <= |g.objs|
    ensures j in NonallocFragments(g, n) <==>
      j < |g.fragments| && !IsAlloc(g.fragments[j].outputSectionFlags) &&
      exists f :: 0 <= f < n && j in g.objs[f].fragments
  {
    if n > 0 {
      NonallocFragmentsExact(g, n - 1, j);
      assert FileOk(g, n - 1);
      NonallocInExact(g, g.objs[n - 1].fragments, j);
    }
  }
}
