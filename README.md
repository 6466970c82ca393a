# A verified model of a point-region octree

`octree.py` is a point-region octree over three-dimensional space. The space is
a cube. Each cube (`OctNode`) is either a leaf holding a list of objects or a
subdivided node with eight branch slots. The slots are numbered by an octant
code: the bit of value 4 (bit 2) is set for the + side in x, the bit of value
2 (bit 1) for y and the bit of value 1 (bit 0) for z. A coordinate equal to
the centre's goes to the + side.

Insertion (`insertNode`) works as follows:
- It descends by that code to an empty slot, where it creates a leaf holding
  just the new object.
- Or it descends to a leaf. A leaf with fewer than `MAX_OBJECTS_PER_CUBE` (10)
  objects appends the new one.
- A leaf that already holds ten objects subdivides: it takes the new object
  into its list, stops being a leaf, gives up its list, and reinserts the
  eleven objects in order into its branches.

Lookup (`findPosition`) follows the same code down and returns the list of the
leaf it reaches, or nothing when it reaches an empty slot.

The project has three modules:

- `Geometry` (`geometry.dfy`) holds points with exact `real` coordinates, the
  branch rule `FindBranch`, the child-centre rule `ChildCenter` and the cube
  corners.
- `OctreeModel` (`tree.dfy`) holds the octree as a value. The `Tree`
  datatype has the constructors `Empty`, `Leaf` and `Internal`. The functions
  `Insert`, `InsertIntoBranch`, `InsertAll` and `Find` are the reference
  semantics. The lemmas prove what insertion keeps:
  - every leaf holds at most ten objects;
  - every object sits below the branch its position selects;
  - every child has half its parent's size and sits a quarter of that size
    from the parent's centre;
  - the objects held grow by exactly the inserted one;
  - lookup by an inserted object's position finds it;
  - subdivision is one-way.
- `Octree` (`octree.dfy`) holds the objects themselves:
  - Class `OctNode` has an `array<OctNode?>` of eight branch slots, a
    mutable `isLeafNode` flag and a mutable `data` field. Its ghost state
    (`Contents`, `Repr`) ties each node to the `Tree` it stands for.
  - Class `Octree` has the root. Its `InsertNode` method updates the nodes in
    place, and its `FindPosition` reads them.
  - These members are proved to compute exactly `Insert` and `Find`.

Python's recursion in `insertNode` does not always come back. For example,
eleven objects at one position make every new leaf subdivide again, until the
interpreter's recursion limit raises "maximum recursion depth exceeded" out of
`insertNode`. Distinct positions do not prevent this. With no bounds check,
eleven objects at or beyond the upper corner of a full leaf's cube, such as
`(1000 + i, 1000, 1000)` in `Octree(100)`, are all sent to branch 7 at every
level, and that branch's cube has the same upper corner. So the model's insertion takes a `fuel` bound:
- The bound is spent only where the source recurses: descending into a
  subdivided node (line 138) and subdividing a full leaf (line 167).
- When the fuel runs out, the node is left as it is and the outcome is marked
  incomplete. An incomplete outcome stands for that error.
- `FuelMonotone` proves the bound changes nothing when the insertion completes.
- `CoincidentNeverCompletes` and `BeyondCornerNeverCompletes` prove the
  non-termination itself.
- `SubdivisionCompletes` proves the other side: a full leaf whose objects and
  the new one leave no branch with more than ten completes with a budget of 1.

Four behaviours of `octree.py` are worth stating outright:
- The comments at line 16 and lines 141-143 say a leaf holds fewer than
  `MAX_OBJECTS_PER_CUBE` objects. The guard at lines 145-149 lets a leaf hold
  exactly ten; only the eleventh makes it subdivide. The model follows the
  code (`Bounded` allows ten).
- The docstring of `findPosition` (line 173) says it returns `None` if the
  leaf is empty. Line 178 returns the leaf's own list, so an empty leaf (such
  as a fresh tree's root) gives `[]`. `Find` follows the code and gives
  `Some([])`.
- Eleven objects at one position never finish inserting
  (`CoincidentNeverCompletes`).
- An object whose position equals the centre of an existing subdivided node
  is dropped, and the tree is unchanged (`DropLeavesTreeUnchanged`). The
  guarantees about keeping objects therefore exclude this case
  (`!Drops(t, o.position)`).

`octree.py` has no bounds check against the root cube, no depth limit or
depth field, and no traversal of the leaves, so the model has none either.

## Model

| member | source | states |
|---|---|---|
| Geometry.FindBranch | octree.py:184-197 | the index is in 0..7, and its x, y and z bits are set exactly when the position is at or above the centre on that axis (ties go to +) |
| Geometry.ChildCenter | octree.py:105-122 | for branches 0..7, each coordinate of the new centre is the parent's moved by the offset, towards + exactly where the branch has that axis's bit; any other index leaves (0, 0, 0) |
| Geometry.ChildCenterInOctant | octree.py:102-122 | a centre built for a branch with a positive offset lies in that branch: FindBranch from the parent's centre gives the same index back |
| Geometry.BitsDetermineBranch | octree.py:190-197 | two indices in 0..7 with the same three bits are equal |
| Geometry.ChildWithinParent | octree.py:133-138 | a child cube of half the size, centred a quarter of the size away, lies inside its parent cube and contains the parent's centre; on each axis its face towards the parent's centre lies exactly on it, so one corner is the parent's centre |
| Geometry.Lower | octree.py:64-67 | for a non-negative size the lower corner is at most the centre on every axis, and strictly below it for a positive size |
| Geometry.Upper | octree.py:64-68 | for a non-negative size the upper corner is at least the centre on every axis, and strictly above it for a positive size |
| OctreeModel.MaxObjectsPerCube | octree.py:30 | a leaf holds at most ten objects; the eleventh makes it subdivide |
| OctreeModel.Empties | octree.py:62 | a fresh node's eight branch slots are all empty |
| OctreeModel.Insert | octree.py:89-168 | insertion keeps the tree well formed; an empty slot becomes a leaf; any other slot stays non-empty at its place and size; a subdivided node stays subdivided (a full leaf may become subdivided) |
| OctreeModel.InsertIntoBranch | octree.py:134-138 | passing an object down keeps a subdivided node subdivided, at the same place and size |
| OctreeModel.InsertAll | octree.py:165-167 | reinserting a list of objects keeps a subdivided node subdivided, at the same place and size |
| OctreeModel.InsertIntoEmptySlot | octree.py:90-128 | reaching an empty slot completes; it yields a leaf holding exactly the object, of the given size, centred half that size from the parent's centre on each axis, on the side of the object |
| OctreeModel.InsertAppends | octree.py:145-147 | a leaf below the limit stays a leaf at the same place and size; it gains exactly the new object at the end and keeps its earlier objects in order |
| OctreeModel.InsertSubdivides | octree.py:149-167 | when the insertion completes, a full leaf that subdivides becomes a subdivided node at the same place and size holding its old objects and the new one; a branch that receives at most ten is empty or a leaf holding exactly the objects FindBranch sends to it, in order; a branch that receives all eleven is a subdivided node holding exactly them, order not kept; every non-empty child has half the size and sits at its branch's offset |
| OctreeModel.SubdivisionKeeps | octree.py:154-167 | when it completes, reinserting ten objects and the new one into a freshly subdivided node gives a subdivided node that holds exactly them; each branch that receives at most ten holds its share in order as a leaf, a branch that receives all eleven is a subdivided node holding exactly them (order not kept), and every child is placed by the halving and offset rules |
| OctreeModel.FreshChildrenPlaced | octree.py:162-167 | every child created during the reinsertion has half the node's size and sits a quarter of it from the centre, on its branch's side |
| OctreeModel.InsertAllFreshKeeps | octree.py:165-167 | when it completes, reinserting at most eleven objects into a freshly subdivided node keeps every leaf within the limit and every object below its own branch; it holds exactly those objects; a branch receiving at most ten holds its share in order as a leaf, and a branch receiving all eleven is a subdivided node holding exactly them, order not kept |
| OctreeModel.FreshStep | octree.py:165-167 | one step of that reinsertion keeps those facts for one more object |
| OctreeModel.StepDistributes | octree.py:165-167 | one step of the reinsertion keeps every branch distributed over its share; only the share of the object's own branch grows, by that object at its end |
| OctreeModel.ShareStep | octree.py:165-167 | the same for one branch: its share grows by the object when the object belongs to it, and is unchanged otherwise |
| OctreeModel.DistributedStep | octree.py:140-167 | after one more completed insertion, an empty slot becomes a leaf holding the object, a leaf with fewer than ten appends it at the end, and a leaf with ten becomes a subdivided node holding exactly the eleven objects |
| OctreeModel.KeepsAtBranch | octree.py:138 | replacing one branch by a tree that keeps the invariant and holds more objects of that branch keeps the invariant and adds those objects |
| OctreeModel.InsertKeeps | octree.py:89-168 | a completed insertion that is not dropped keeps every leaf within the limit and every object below its own branch, and adds exactly the new object to the objects held |
| OctreeModel.LeafKeeps | octree.py:140-167 | the same at a leaf, by appending or by subdividing |
| OctreeModel.BranchKeeps | octree.py:131-138 | the same when the object is passed down to its branch |
| OctreeModel.InsertKeepsPlacement | octree.py:89-168 | every child in the tree keeps half its parent's size and its branch's quarter-size offset |
| OctreeModel.BranchKeepsPlacement | octree.py:134-138 | the same when the object is passed down to its branch |
| OctreeModel.InsertAllKeepsPlacement | octree.py:165-167 | the same for reinsertion of a list of objects |
| OctreeModel.InsertThenFind | octree.py:89-181 | on a tree satisfying the invariant, a completed insertion that is not dropped keeps the invariant; it adds exactly the object; lookup at its position reaches a leaf that holds it; every object held before is still found at its own position |
| OctreeModel.Find | octree.py:175-181 | lookup returns nothing for an empty slot, and the list it returns holds only objects that the tree holds |
| OctreeModel.FindLocates | octree.py:175-181 | lookup by an object's own position reaches a leaf, and that leaf holds the object |
| OctreeModel.FindBounded | octree.py:175-178 | every leaf a lookup reaches in a tree within the limit holds at most ten objects |
| OctreeModel.DropLeavesTreeUnchanged | octree.py:131-140 | when the descent meets a subdivided node centred exactly at the object's position, insertion stores nothing and the tree is unchanged |
| OctreeModel.ExtendsReflexive | octree.py:140-160 | every tree grows out of itself |
| OctreeModel.ExtendsTransitive | octree.py:140-160 | growth by insertion composes |
| OctreeModel.InsertExtends | octree.py:140-160 | insertion only grows the tree: no slot is emptied, no node moves or changes size, no subdivided node becomes a leaf again, and a leaf that stays a leaf keeps its objects as a prefix |
| OctreeModel.BranchExtends | octree.py:134-138 | the same for passing an object down to its branch |
| OctreeModel.InsertAllExtends | octree.py:165-167 | the same for reinsertion of a list of objects |
| OctreeModel.FuelMonotone | octree.py:131-167 | a completed insertion gives the same result with any larger recursion bound |
| OctreeModel.BranchFuelMonotone | octree.py:134-138 | the same for passing an object down |
| OctreeModel.InsertAllFuelMonotone | octree.py:165-167 | the same for reinsertion of a list of objects |
| OctreeModel.OneBranchFill | octree.py:162-167 | up to ten objects that FindBranch all sends to one branch, reinserted into a freshly subdivided node, all land in order in one leaf of half the size at that branch's offset, and every other branch stays empty |
| OctreeModel.BeyondCornerNeverCompletes | octree.py:149-167 | adding an eleventh object to a full leaf when all eleven lie at or beyond the upper corner of its cube never completes, whatever the recursion bound, even at distinct positions |
| OctreeModel.SubdivisionCompletes | octree.py:149-167 | a full leaf whose objects and the new one send at most ten to every branch completes its insertion for any budget of at least 1 |
| OctreeModel.FreshInsertAllCompletes | octree.py:165-167 | reinserting at most eleven objects into a freshly subdivided node completes for any budget when no branch receives more than ten |
| OctreeModel.RoomyStepCompletes | octree.py:138-147 | passing an object down to a branch that is empty or a leaf below the limit completes |
| OctreeModel.CoincidentNeverCompletes | octree.py:149-167 | adding an eleventh object to a full leaf whose objects all share its position never completes, whatever the recursion bound |
| Octree.OctNode.constructor | octree.py:51-68 | a new node is a valid leaf holding exactly the given objects, with eight empty branch slots; its corners are its position minus and plus half its size |
| Octree.Octree.constructor | octree.py:82-83 | the root is a valid leaf at the origin with the world's size and no objects |
| Octree.Octree.AddNode | octree.py:85-87 | returns a fresh valid leaf holding exactly the given objects |
| Octree.Octree.InsertNode | octree.py:89-168 | the nodes stay valid; a non-empty slot is updated in place and any new nodes are fresh; the resulting tree and completion are exactly Insert applied to the tree the slot held |
| Octree.Octree.InsertIntoChild | octree.py:134-138 | the node stays a valid subdivided node; its tree and completion are exactly InsertIntoBranch of its tree before |
| Octree.Octree.Attach | octree.py:138 | writing the returned node into its slot makes the parent valid again; the parent's footprint gains the child's, and its tree has that branch replaced by the child's tree |
| Octree.Octree.Subdivide | octree.py:149-167 | the full leaf becomes a valid subdivided node; its tree and completion are exactly InsertAll of its old objects followed by the new one into a freshly subdivided node at its place and size |
| Octree.Octree.FindPosition | octree.py:170-181 | the result read from the nodes is exactly Find on the tree the nodes stand for |

## Left out

- Floating point. Coordinates and sizes are exact reals, so `size / 2` never rounds.
- The demonstration under `if __name__ == "__main__"` (lines 202-265). It is random data, timing and printing.
- Multi-threading. The source has it only as a TODO.
- OctreeModel.Insert: does not model the recursion-limit error directly. A `fuel` bound stops the recursion and reports an incomplete outcome where Python raises "maximum recursion depth exceeded". `CoincidentNeverCompletes` and `BeyondCornerNeverCompletes` show inputs that do that. The tree in an incomplete outcome is not the state Python leaves behind after the error: there, nodes already subdivided in place stay subdivided with `data = None`, and the branch writes of the frames still on the stack never happen. Only complete outcomes are claimed to match the source.
- Octree.Octree.InsertNode: the same `fuel` bound, returned as `complete == false`.
- OctreeModel.InsertKeeps: excludes an object dropped at a subdivided node centred at its position (`Drops`), because the source stores nothing there. `DropLeavesTreeUnchanged` states what happens instead.
- OctreeModel.InsertThenFind: the same exclusion.
- Objects are modelled as an identity and a position (`Obj`). The source accepts any object with a `position` attribute, and the tree reads nothing else of it.
- Aliasing of the object lists. `OctNode` stores the caller's list object itself (line 59), and `findPosition` returns a leaf's own list (line 178). So in Python a caller holding that list sees later appends (lines 147 and 154), and a caller who changes it changes the tree. The model's `data` and `FindPosition` use sequence values, so none of this sharing is captured.
- Integer division. The source is Python 2, so `size / 2` (lines 64, 99, 136 and 162) floors when the size is an `int`, as in `Octree(100)`. The model divides exact reals, which matches a float size such as the demonstration's `15000.0`.
- `parent` stays an `OctNode` because the source only reads its position. The `size` argument is read only when the slot is empty, as in the source.
- After subdivision `data` is `None`, modelled with `Option`. In Python `objList` is the same list object as `root.data` (line 156). The model copies it instead. Line 158 sets `root.data` to `None` straight away, so the copy and the alias behave the same.
- `lower` and `upper` are computed and never read, as in the source.
