/** The octree as the objects that hold it: nodes whose fields insertion
    updates in place. Every node carries, as ghost state, the value-level
    tree of module OctreeModel it stands for, and the operations of class
    Octree are proved to compute exactly the functions of that module. */
module Octree {
  import opened Geometry
  import opened OctreeModel

  /** A cube of the tree: a leaf holding a list of objects and eight empty
      branch slots, or, once subdivided, a node with no objects whose branch
      slots hold the child cubes. */
  class OctNode {
    const position: Point
    const size: real
    /** Corners of the cube; they are set once and never read. */
    const lower: Point
    const upper: Point
    var isLeafNode: bool
    /** The objects of a leaf; None once the node has subdivided. */
    var data: Option<seq<Obj>>
    const branches: array<OctNode?>

    /** The value-level tree this node stands for. */
    ghost var Contents: Tree
    /** This node, its branch array and every node below it. */
    ghost var Repr: set<object>

    /** The node invariant: a leaf holds a list of objects and no branches
        and stands for a Leaf of the same place and size; a subdivided node
        satisfies BranchesValid for every slot. */
    ghost predicate Valid()
      reads this, Repr
      decreases Repr, 1
    {
      this in Repr && branches in Repr && branches.Length == 8 && WellFormed(Contents) &&
      (isLeafNode ==>
         data.Some? && Contents == Leaf(position, size, data.value) &&
         forall i :: 0 <= i < 8 ==> branches[i] == null) &&
      (!isLeafNode ==> Contents.Internal? && BranchesValid(8))
    }

    /** This node is subdivided: it holds no objects and stands for a
        subdivided node at its own place and size, and each of its branch
        slots other than `skip` is empty or holds a valid node of its own
        below it, apart from the others, that stands for the matching
        branch of Contents. */
    ghost predicate BranchesValid(skip: int)
      reads this, Repr
      decreases Repr, 0
    {
      this in Repr && branches in Repr && branches.Length == 8 &&
      data.None? && Contents.Internal? && |Contents.branches| == 8 &&
      Contents.position == position && Contents.size == size &&
      (forall i :: 0 <= i < 8 && i != skip ==>
         if branches[i] == null then Contents.branches[i] == Empty
         else
           branches[i] in Repr && branches[i].Repr <= Repr &&
           this !in branches[i].Repr && branches !in branches[i].Repr &&
           branches[i].Valid() && branches[i].Contents == Contents.branches[i]) &&
      (forall i, j :: 0 <= i < j < 8 && i != skip && j != skip && branches[i] != null && branches[j] != null ==>
         branches[i].Repr !! branches[j].Repr)
    }

    /** A new node is a leaf holding `data`, with empty branch slots and the
        corners of its cube at half its size from its centre. */
    constructor(position: Point, size: real, data: seq<Obj>)
      ensures Valid() && fresh(Repr)
      ensures Contents == Leaf(position, size, data)
      ensures this.position == position && this.size == size
      ensures isLeafNode && this.data == Some(data)
      ensures branches.Length == 8 && forall i :: 0 <= i < 8 ==> branches[i] == null
      ensures lower == Lower(position, size) && upper == Upper(position, size)
    {
      this.position := position;
      this.size := size;
      isLeafNode := true;
      this.data := Some(data);
      branches := new OctNode?[8](_ => null);
      lower := Lower(position, size);
      upper := Upper(position, size);
      Contents := Leaf(position, size, data);
      new;
      Repr := {this, branches};
    }
  }

  /** The value-level tree a branch slot stands for: Empty for a null slot. */
  ghost function TreeOf(n: OctNode?): Tree
    reads n
  {
    if n == null then Empty else n.Contents
  }

  /** The octree: a root cube of the world's size centred at the origin. */
  class Octree {
    const root: OctNode
    const worldSize: real

    /** The root starts as a leaf holding nothing. */
    constructor(worldSize: real)
      ensures root.Valid() && fresh(root.Repr)
      ensures root.Contents == Leaf(Point(0.0, 0.0, 0.0), worldSize, [])
      ensures this.worldSize == worldSize
    {
      var n := AddNode(Point(0.0, 0.0, 0.0), worldSize, []);
      root := n;
      this.worldSize := worldSize;
    }

    /** Creates a leaf node holding `objects`. */
    static method AddNode(position: Point, size: real, objects: seq<Obj>) returns (n: OctNode)
      ensures n.Valid() && fresh(n.Repr)
      ensures n.Contents == Leaf(position, size, objects)
    {
      n := new OctNode(position, size, objects);
    }

    /** Inserts `objData` into the slot `root`, a slot of edge `size` below a
        node centred at `parent.position`, and returns the node that now
        fills the slot: a new leaf for an empty slot, otherwise `root` itself,
        updated in place. `fuel` bounds the nested descents and subdivisions;
        when it runs out the node is returned as it is and `complete` is
        false. The resulting tree and `complete` are exactly what Insert
        gives for the tree the slot held. */
    method InsertNode(root: OctNode?, size: real, parent: OctNode, objData: Obj, fuel: nat)
      returns (r: OctNode, complete: bool)
      requires root != null ==> root.Valid()
      modifies if root == null then {} else root.Repr
      ensures r.Valid()
      ensures root != null ==> r == root
      ensures fresh(r.Repr - (if root == null then {} else old(root.Repr)))
      ensures Outcome(r.Contents, complete) == Insert(old(TreeOf(root)), size, parent.position, objData, fuel)
      decreases fuel, 0
    {
      if root == null {
        var branch := FindBranch(parent.position, objData.position);
        var newCenter := ChildCenter(parent.position, branch, size / 2.0);
        r := AddNode(newCenter, size, [objData]);
        complete := true;
      } else if root.position != objData.position && !root.isLeafNode {
        r := root;
        if fuel == 0 {
          complete := false;
        } else {
          complete := InsertIntoChild(root, objData, fuel - 1);
        }
      } else if root.isLeafNode {
        r := root;
        if |root.data.value| < MaxObjectsPerCube {
          root.data := Some(root.data.value + [objData]);
          root.Contents := Leaf(root.position, root.size, root.data.value);
          complete := true;
        } else if |root.data.value| == MaxObjectsPerCube {
          if fuel == 0 {
            complete := false;
          } else {
            complete := Subdivide(root, objData, fuel - 1);
          }
        } else {
          complete := true;
        }
      } else {
        r := root;
        complete := true;
      }
    }

    /** Passes `objData` down to the branch of the subdivided node `root`
        that FindBranch picks for it, as a slot of half `root`'s size, and
        puts the node that comes back into that branch. */
    method InsertIntoChild(root: OctNode, objData: Obj, fuel: nat) returns (complete: bool)
      requires root.Valid() && !root.isLeafNode
      modifies root.Repr
      ensures root.Valid() && !root.isLeafNode
      ensures fresh(root.Repr - old(root.Repr))
      ensures Outcome(root.Contents, complete) == InsertIntoBranch(old(root.Contents), objData, fuel)
      decreases fuel, 1
    {
      var branch := FindBranch(root.position, objData.position);
      var newSize := root.size / 2.0;
      assert root.BranchesValid(8);
      var child, c := InsertNode(root.branches[branch], newSize, root, objData, fuel);
      // the call changed nothing outside the chosen branch
      assert root.BranchesValid(branch) by {
        assert old(root.BranchesValid(8));
      }
      assert root !in child.Repr && root.branches !in child.Repr;
      assert child.Valid();
      forall i | 0 <= i < 8 && i != branch && root.branches[i] != null
        ensures root.branches[i].Repr !! child.Repr
      {
      }
      Attach(root, branch, child);
      complete := c;
    }

    /** Puts `child` into branch slot `b` of the subdivided node `root`, whose
        other slots are valid and lie apart from `child`. */
    static method Attach(root: OctNode, b: int, child: OctNode)
      requires 0 <= b < 8 && !root.isLeafNode && root.BranchesValid(b)
      requires child.Valid() && root !in child.Repr && root.branches !in child.Repr
      requires forall i :: 0 <= i < 8 && i != b && root.branches[i] != null ==> root.branches[i].Repr !! child.Repr
      modifies root, root.branches
      ensures root.Valid() && !root.isLeafNode
      ensures root.Repr == old(root.Repr) + child.Repr
      ensures root.Contents == old(root.Contents).(branches := old(root.Contents).branches[b := child.Contents])
    {
      root.branches[b] := child;
      root.Repr := root.Repr + child.Repr;
      root.Contents := root.Contents.(branches := root.Contents.branches[b := child.Contents]);
    }

    /** Turns the full leaf `root` into a subdivided node: `objData` joins its
        objects, the node gives them up and stops being a leaf, and they are
        inserted, first to last, each into its branch. */
    method Subdivide(root: OctNode, objData: Obj, fuel: nat) returns (complete: bool)
      requires root.Valid() && root.isLeafNode
      modifies root.Repr
      ensures root.Valid() && !root.isLeafNode
      ensures fresh(root.Repr - old(root.Repr))
      ensures Outcome(root.Contents, complete)
        == InsertAll(Internal(root.position, root.size, Empties()), old(root.data.value) + [objData], fuel)
      decreases fuel, 2
    {
      root.data := Some(root.data.value + [objData]);
      var objList := root.data.value;
      root.data := None;
      root.isLeafNode := false;
      root.Contents := Internal(root.position, root.size, Empties());
      ghost var start := root.Contents;
      complete := true;
      for k := 0 to |objList|
        invariant root.Valid() && !root.isLeafNode
        invariant fresh(root.Repr - old(root.Repr))
        invariant Outcome(root.Contents, complete) == InsertAll(start, objList[..k], fuel)
      {
        var ob := objList[k];
        assert objList[..k + 1][..k] == objList[..k];
        var c := InsertIntoChild(root, ob, fuel);
        complete := complete && c;
      }
      assert objList[..|objList|] == objList;
    }

    /** The objects of the leaf that descending from `root` towards
        `position` reaches, or None when the descent reaches an empty slot. */
    function FindPosition(root: OctNode?, position: Point): (r: Option<seq<Obj>>)
      requires root != null ==> root.Valid()
      reads if root == null then {} else root.Repr
      ensures r == Find(TreeOf(root), position)
      decreases if root == null then {} else root.Repr
    {
      if root == null then None
      else if root.isLeafNode then root.data
      else
        assert root.BranchesValid(8);
        var branch := FindBranch(root.position, position);
        FindPosition(root.branches[branch], position)
    }
  }
}
