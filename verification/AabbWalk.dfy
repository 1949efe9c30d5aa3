/**
 * The walk that tests a swept box against the triangles under a tree of bounding boxes, with one
 * time stamp per triangle partition so that none is tested twice in a trace
 * (CM_PositionTestInAabbTree_r, CM_MeshTestInLeaf, CM_GetTraceThreadInfo).
 */
module AabbWalk {
  import opened Vectors
  import Cull = CullBox

  /** `firstIndex` is the union: the first child of an inner node, the partition of a leaf. */
  datatype AabbTree = AabbTree(origin: Vec3, halfSize: Vec3, childCount: nat, firstIndex: nat)

  datatype Partition = Partition(firstTri: nat, triCount: nat)

  /**
   * The loaded map, the box being traced with what the set-up derives from its motion, and the triangle
   * test, which is left abstract.
   */
  datatype World = World(
    trees: seq<AabbTree>,
    partitions: seq<Partition>,
    start: Vec3,
    end: Vec3,
    size: Vec3,
    sweep: Cull.Sweep,
    axialCullOnly: bool,
    capsuleInTriangle: nat -> bool,
    ghost rank: seq<nat>)
  {
    predicate Culled(i: nat)
      requires i < |trees|
    {
      Cull.CullBox(sweep, axialCullOnly, trees[i].origin, trees[i].halfSize)
    }

    /**
     * Indices are in range and children rank below their parent, so the tree is finite; no box has a
     * negative size, and the sweep is that of the box being traced.
     */
    ghost predicate Valid() {
      && |rank| == |trees|
      && Cull.IsSize(size) && (forall i :: 0 <= i < |trees| ==> Cull.IsSize(trees[i].halfSize))
      && sweep == Cull.SweepOf(start, end, size)
      && forall i :: 0 <= i < |trees| ==>
           if trees[i].childCount == 0 then trees[i].firstIndex < |partitions|
           else && trees[i].firstIndex + trees[i].childCount <= |trees|
                && forall c: nat :: IsChild(c, i) ==> rank[c] < rank[i]
    }

    /**
     * The moving box meets the box of tree `i`: at some time they share a point; under the axial shortcut
     * it is enough that each axis has a time of its own at which they overlap on it.
     */
    ghost predicate Meets(i: nat)
      requires i < |trees|
    {
      if axialCullOnly then Cull.HullsMeet(start, end, size, trees[i].origin, trees[i].halfSize)
      else Cull.SweptBoxesMeet(start, end, size, trees[i].origin, trees[i].halfSize)
    }

    lemma CulledIffMissed(i: nat)
      requires Valid() && i < |trees|
      ensures Culled(i) <==> !Meets(i)
    {
      hide Cull.CullBox, Cull.SweptBoxesMeet, Cull.HullsMeet, Cull.SweepOf;
      if axialCullOnly {
        Cull.AxialCullIsExact(start, end, size, trees[i].origin, trees[i].halfSize);
      } else {
        Cull.CullIsExact(start, end, size, trees[i].origin, trees[i].halfSize);
      }
    }

    /** Partition `p` lies under a leaf of tree `i` such that the moving box meets its box and those of all its ancestors. */
    ghost predicate Reaches(i: nat, p: nat)
      requires Valid() && i < |trees|
      decreases rank[i]
    {
      && Meets(i)
      && if trees[i].childCount == 0 then trees[i].firstIndex == p
         else exists c: nat :: IsChild(c, i) && Reaches(c, p)
    }

    /** Some triangle of the partition passes the test. */
    ghost predicate Hits(p: nat)
      requires p < |partitions|
    {
      exists t: nat :: partitions[p].firstTri <= t < partitions[p].firstTri + partitions[p].triCount && capsuleInTriangle(t)
    }

    /** Some partition reached from tree `i` holds a passing triangle. */
    ghost predicate Solid(i: nat)
      requires Valid() && i < |trees|
    {
      exists p: nat :: p < |partitions| && Reaches(i, p) && Hits(p)
    }

    ghost predicate IsChild(c: nat, i: nat)
      requires i < |trees|
    {
      trees[i].firstIndex <= c < trees[i].firstIndex + trees[i].childCount
    }

    lemma SolidLeaf(i: nat)
      requires Valid() && i < |trees| && Meets(i) && trees[i].childCount == 0
      ensures Solid(i) <==> Hits(trees[i].firstIndex)
    {
      assert Reaches(i, trees[i].firstIndex);
    }

    lemma SolidInner(i: nat)
      requires Valid() && i < |trees| && Meets(i) && trees[i].childCount != 0
      ensures Solid(i) <==> exists c: nat :: IsChild(c, i) && Solid(c)
    {
      if Solid(i) {
        var p: nat :| p < |partitions| && Reaches(i, p) && Hits(p);
        var c: nat :| IsChild(c, i) && Reaches(c, p);
        assert Solid(c);
      }
      if c: nat :| IsChild(c, i) && Solid(c) {
        var p: nat :| p < |partitions| && Reaches(c, p) && Hits(p);
        assert Reaches(i, p);
      }
    }
  }

  ghost predicate NoDuplicates(s: seq<nat>) {
    forall i, j :: 0 <= i < j < |s| ==> s[i] != s[j]
  }

  const MAX_STAMP := 0x7fff_ffff

  class Walk {
    const world: World
    const stamps: array<int>
    var stamp: int
    var startsolid: bool
    var allsolid: bool
    /** The partitions tested since the trace began, in order. */
    ghost var tested: seq<nat>

    constructor (world: World)
      requires world.Valid()
      ensures this.world == world && Valid() && fresh(stamps)
      ensures stamp == 0 && !startsolid && tested == []
      ensures StampsOld()
    {
      this.world := world;
      stamps := new int[|world.partitions|](_ => -1);
      stamp, startsolid, allsolid, tested := 0, false, false, [];
    }

    /** No stamp is newer than the current one. */
    ghost predicate StampsOld()
      reads this, stamps
    {
      forall p :: 0 <= p < stamps.Length ==> stamps[p] <= stamp
    }

    /** A partition carries the current stamp exactly when this trace has tested it. */
    ghost predicate Valid()
      reads this, stamps
    {
      && world.Valid()
      && stamps.Length == |world.partitions|
      && startsolid == allsolid
      && NoDuplicates(tested)
      && (forall k :: 0 <= k < |tested| ==> tested[k] < stamps.Length)
      && (forall p: nat :: p < stamps.Length ==> (stamps[p] == stamp <==> p in tested))
      && (!startsolid ==> forall k :: 0 <= k < |tested| ==> !world.Hits(tested[k]))
    }

    /** CM_GetTraceThreadInfo: begin a new trace by moving on to a stamp no partition carries. */
    method BeginTrace()
      requires world.Valid() && stamps.Length == |world.partitions| && StampsOld() && stamp < MAX_STAMP
      modifies this
      ensures stamp == old(stamp) + 1
      ensures Valid() && StampsOld() && tested == [] && !startsolid
    {
      stamp := stamp + 1;
      startsolid, allsolid, tested := false, false, [];
    }

    /** The leaf branch: stamp the partition and run through its triangles. */
    method TestPartition(p: nat)
      requires Valid() && !startsolid && p < stamps.Length
      modifies this`startsolid, this`allsolid, this`tested, stamps
      ensures Valid()
      ensures tested == if p in old(tested) then old(tested) else old(tested) + [p]
      ensures startsolid <==> world.Hits(p)
      ensures old(StampsOld()) ==> StampsOld()
    {
      if stamps[p] != stamp {
        stamps[p] := stamp;
        ghost var first := world.partitions[p].firstTri;
        var indices: nat, triCount: nat := world.partitions[p].firstTri, world.partitions[p].triCount;
        while triCount != 0
          invariant indices + triCount == first + world.partitions[p].triCount && first <= indices
          invariant startsolid == allsolid
          invariant !startsolid && forall t: nat :: first <= t < indices ==> !world.capsuleInTriangle(t)
          decreases triCount
        {
          if world.capsuleInTriangle(indices) {
            startsolid, allsolid := true, true;
            break;
          }
          indices := indices + 1;
          triCount := triCount - 1;
        }
        tested := tested + [p];
      }
    }

    /**
     * Starting without a hit, the walk of tree `i` reports one exactly when some partition it reaches
     * holds a passing triangle; it adds to the tested partitions and repeats none.
     */
    method PositionTestInAabbTree(i: nat)
      requires Valid() && !startsolid && i < |world.trees|
      modifies this`startsolid, this`allsolid, this`tested, stamps
      ensures Valid()
      ensures old(tested) <= tested
      ensures startsolid <==> world.Solid(i)
      ensures old(StampsOld()) ==> StampsOld()
      decreases world.rank[i]
    {
      var tree := world.trees[i];
      world.CulledIffMissed(i);
      hide World.Hits, World.Culled, World.Meets, NoDuplicates;
      if !world.Culled(i) {
        if tree.childCount != 0 {
          world.SolidInner(i);
          var child: nat, childIndex := tree.firstIndex, 0;
          while childIndex < tree.childCount
            invariant childIndex <= tree.childCount && child == tree.firstIndex + childIndex
            invariant Valid() && !startsolid && old(tested) <= tested
            invariant forall c: nat :: world.IsChild(c, i) && c < child ==> !world.Solid(c)
            invariant old(StampsOld()) ==> StampsOld()
          {
            assert world.IsChild(child, i);
            PositionTestInAabbTree(child);
            if startsolid {
              break;
            }
            childIndex := childIndex + 1;
            child := child + 1;
          }
        } else {
          world.SolidLeaf(i);
          TestPartition(tree.firstIndex);
        }
      }
    }

    /** CM_MeshTestInLeaf: the trees of one leaf that match the content mask, until one reports a hit. */
    method MeshTestInLeaf(roots: seq<nat>)
      requires Valid() && !startsolid && forall k :: 0 <= k < |roots| ==> roots[k] < |world.trees|
      modifies this`startsolid, this`allsolid, this`tested, stamps
      ensures Valid() && old(tested) <= tested
      ensures startsolid <==> exists k :: 0 <= k < |roots| && world.Solid(roots[k])
      ensures old(StampsOld()) ==> StampsOld()
    {
      for k := 0 to |roots|
        invariant Valid() && !startsolid && old(tested) <= tested
        invariant forall j :: 0 <= j < k ==> !world.Solid(roots[j])
        invariant old(StampsOld()) ==> StampsOld()
      {
        PositionTestInAabbTree(roots[k]);
        if allsolid {
          return;
        }
      }
    }
  }
}
