/** The octree as a value: the reference semantics of insertion and point
    lookup, and what they preserve. The classes in module Octree are proved to
    compute exactly these functions. */
module OctreeModel {
  import opened Geometry

  /** Most objects a leaf holds; one more makes it subdivide. */
  const MaxObjectsPerCube := 10

  datatype Option<T> = None | Some(value: T)

  /** A stored object: an identity the tree never inspects and the position
      the tree files it under. */
  datatype Obj = Obj(id: nat, position: Point)

  /** A branch slot: empty, a leaf holding objects, or a subdivided node whose
      eight branch slots are indexed by FindBranch. */
  datatype Tree =
    | Empty
    | Leaf(position: Point, size: real, data: seq<Obj>)
    | Internal(position: Point, size: real, branches: seq<Tree>)

  /** What an insertion produced, and whether it finished within its
      recursion budget. */
  datatype Outcome = Outcome(tree: Tree, complete: bool)

  /** Every subdivided node has exactly eight branch slots. */
  predicate WellFormed(t: Tree)
  {
    match t
    case Internal(_, _, br) => |br| == 8 && forall i :: 0 <= i < 8 ==> WellFormed(br[i])
    case _ => true
  }

  /** Eight empty branch slots, as a freshly subdivided node has them. */
  function Empties(): (br: seq<Tree>)
    ensures |br| == 8 && forall i :: 0 <= i < 8 ==> br[i] == Empty
  {
    [Empty, Empty, Empty, Empty, Empty, Empty, Empty, Empty]
  }

  // ---------------------------------------------------------------------
  // Insertion and lookup

  /** Insert `o` into the slot `t`. When `t` is empty a leaf is made whose
      centre is `parent` moved by `size / 2` towards `o`, with edge `size`.
      `fuel` bounds the depth of nested descents and subdivisions; when it
      runs out the node is left as it is and the outcome is incomplete. */
  function Insert(t: Tree, size: real, parent: Point, o: Obj, fuel: nat): (r: Outcome)
    requires WellFormed(t)
    ensures WellFormed(r.tree)
    ensures t.Empty? ==> r.tree.Leaf?
    ensures t != Empty ==> r.tree != Empty && r.tree.position == t.position && r.tree.size == t.size
    ensures t.Internal? ==> r.tree.Internal?
    decreases fuel, 0, 0
  {
    match t
    case Empty =>
      var branch := FindBranch(parent, o.position);
      Outcome(Leaf(ChildCenter(parent, branch, size / 2.0), size, [o]), true)
    case Internal(c, _, _) =>
      if c == o.position then Outcome(t, true)
      else if fuel == 0 then Outcome(t, false)
      else InsertIntoBranch(t, o, fuel - 1)
    case Leaf(c, s, data) =>
      if |data| < MaxObjectsPerCube then Outcome(Leaf(c, s, data + [o]), true)
      else if |data| == MaxObjectsPerCube then
        if fuel == 0 then Outcome(t, false)
        else InsertAll(Internal(c, s, Empties()), data + [o], fuel - 1)
      else Outcome(t, true)
  }

  /** Insert `o` into the branch of the subdivided node `t` that FindBranch
      picks for it, as a slot of half `t`'s size, and put the result back
      into that branch. */
  function InsertIntoBranch(t: Tree, o: Obj, fuel: nat): (r: Outcome)
    requires t.Internal? && WellFormed(t)
    ensures r.tree.Internal? && WellFormed(r.tree)
    ensures r.tree.position == t.position && r.tree.size == t.size
    decreases fuel, 1, 0
  {
    var branch := FindBranch(t.position, o.position);
    var sub := Insert(t.branches[branch], t.size / 2.0, t.position, o, fuel);
    Outcome(t.(branches := t.branches[branch := sub.tree]), sub.complete)
  }

  /** Insert `objs`, first to last, each into its branch of `t`. */
  function InsertAll(t: Tree, objs: seq<Obj>, fuel: nat): (r: Outcome)
    requires t.Internal? && WellFormed(t)
    ensures r.tree.Internal? && WellFormed(r.tree)
    ensures r.tree.position == t.position && r.tree.size == t.size
    decreases fuel, 2, |objs|
  {
    if objs == [] then Outcome(t, true)
    else
      var prev := InsertAll(t, objs[..|objs| - 1], fuel);
      var step := InsertIntoBranch(prev.tree, objs[|objs| - 1], fuel);
      Outcome(step.tree, prev.complete && step.complete)
  }

  /** The objects of the leaf that a descent by FindBranch reaches, or None
      when the descent reaches an empty slot. */
  function Find(t: Tree, position: Point): (r: Option<seq<Obj>>)
    requires WellFormed(t)
    ensures r.Some? ==> multiset(r.value) <= Objects(t)
    ensures t.Empty? ==> r.None?
  {
    match t
    case Empty => None
    case Leaf(_, _, data) => Some(data)
    case Internal(c, _, br) =>
      var b := FindBranch(c, position);
      BranchObjectsInclude(t, b, 8);
      Find(br[b], position)
  }

  // ---------------------------------------------------------------------
  // Specification functions and invariants

  /** All objects held in the leaves of `t`. */
  function Objects(t: Tree): multiset<Obj>
    requires WellFormed(t)
    decreases t, 1, 0
  {
    match t
    case Empty => multiset{}
    case Leaf(_, _, data) => multiset(data)
    case Internal(_, _, br) => BranchObjects(t, 8)
  }

  /** All objects held below the first `n` branch slots of `t`. */
  function BranchObjects(t: Tree, n: nat): multiset<Obj>
    requires t.Internal? && WellFormed(t) && n <= 8
    decreases t, 0, n
  {
    if n == 0 then multiset{} else BranchObjects(t, n - 1) + Objects(t.branches[n - 1])
  }

  /** The objects of `objs` that FindBranch sends to `branch` of a node
      centred at `centre`, in their order in `objs`. */
  function InBranch(objs: seq<Obj>, centre: Point, branch: int): (r: seq<Obj>)
    ensures |r| <= |objs|
    ensures multiset(r) <= multiset(objs)
  {
    if objs == [] then []
    else
      var last := objs[|objs| - 1];
      assert objs == objs[..|objs| - 1] + [last];
      InBranch(objs[..|objs| - 1], centre, branch)
        + (if FindBranch(centre, last.position) == branch then [last] else [])
  }

  /** A child has half its parent's size, and its centre
      is a quarter of the parent's size away on each axis, on the side its
      branch index names. */
  predicate Placed(t: Tree)
    requires WellFormed(t)
  {
    match t
    case Internal(c, s, br) =>
      forall i :: 0 <= i < 8 ==>
        Placed(br[i]) &&
        (br[i] != Empty ==> br[i].size == s / 2.0 && br[i].position == ChildCenter(c, i, s / 4.0))
    case _ => true
  }

  /** No leaf holds more than MaxObjectsPerCube objects. */
  predicate Bounded(t: Tree)
    requires WellFormed(t)
  {
    match t
    case Empty => true
    case Leaf(_, _, data) => |data| <= MaxObjectsPerCube
    case Internal(_, _, br) => forall i :: 0 <= i < 8 ==> Bounded(br[i])
  }

  /** Every object sits below the branch that FindBranch picks for its
      position, at every level. */
  predicate Consistent(t: Tree)
    requires WellFormed(t)
  {
    match t
    case Internal(c, _, br) =>
      forall i :: 0 <= i < 8 ==>
        Consistent(br[i]) && forall o :: o in Objects(br[i]) ==> FindBranch(c, o.position) == i
    case _ => true
  }

  /** The invariant every tree built by insertion keeps. */
  predicate Inv(t: Tree)
  {
    WellFormed(t) && Placed(t) && Bounded(t) && Consistent(t)
  }

  /** Descending towards `p` meets an existing subdivided node centred
      exactly at `p`; insertion stops there without storing anything. */
  predicate Drops(t: Tree, p: Point)
    requires WellFormed(t)
  {
    match t
    case Internal(c, _, br) => c == p || Drops(br[FindBranch(c, p)], p)
    case _ => false
  }

  /** How the branches of a freshly subdivided node hold the objects `f`
      sent to it: none, a leaf with exactly `f` in order, or, when one more
      object than a leaf holds arrived, a subdivided node holding exactly
      the objects of `f`. */
  predicate Distributed(t: Tree, f: seq<Obj>)
  {
    if f == [] then t == Empty
    else if |f| <= MaxObjectsPerCube then t.Leaf? && t.data == f
    else t.Internal? && WellFormed(t) && Objects(t) == multiset(f)
  }

  /** `u` grows out of `t` by insertion only: no slot is emptied, no node
      moves or changes size, a subdivided node stays subdivided, and a leaf
      that stays a leaf keeps its objects as a prefix. */
  predicate Extends(t: Tree, u: Tree)
    requires WellFormed(t) && WellFormed(u)
  {
    match t
    case Empty => true
    case Leaf(c, s, data) =>
      u != Empty && u.position == c && u.size == s && (u.Leaf? ==> data <= u.data)
    case Internal(c, s, br) =>
      u.Internal? && u.position == c && u.size == s &&
      forall i :: 0 <= i < 8 ==> Extends(br[i], u.branches[i])
  }

  // ---------------------------------------------------------------------
  // Lemmas about the objects a tree holds

  /** Replacing branch `b` by a tree holding `m` more objects adds `m` to
      the objects below the first `n` branches once `b` is among them. */
  lemma {:induction false} BranchObjectsGrow(t: Tree, b: int, x: Tree, m: multiset<Obj>, n: nat)
    requires t.Internal? && WellFormed(t) && WellFormed(x) && 0 <= b < 8 && n <= 8
    requires Objects(x) == Objects(t.branches[b]) + m
    ensures var u := t.(branches := t.branches[b := x]);
      WellFormed(u) && BranchObjects(u, n) == BranchObjects(t, n) + (if b < n then m else multiset{})
  {
    var u := t.(branches := t.branches[b := x]);
    UpdateWellFormed(t, b, x);
    if n > 0 {
      BranchObjectsGrow(t, b, x, m, n - 1);
      var extra := if b < n - 1 then m else multiset{};
      if n - 1 == b {
        assert u.branches[n - 1] == x;
        UnionRegroup(BranchObjects(t, n - 1), Objects(t.branches[b]), m);
      } else {
        assert u.branches[n - 1] == t.branches[n - 1];
        UnionRegroup(BranchObjects(t, n - 1), Objects(t.branches[n - 1]), extra);
      }
    }
  }

  /** Multiset union may be regrouped. */
  lemma UnionRegroup(a: multiset<Obj>, c: multiset<Obj>, m: multiset<Obj>)
    ensures a + (c + m) == (a + c) + m && (a + m) + c == (a + c) + m
  {
  }

  /** The objects below branch `i` are among those below the first `n`
      branches once `i` is among them. */
  lemma {:induction false} BranchObjectsInclude(t: Tree, i: int, n: nat)
    requires t.Internal? && WellFormed(t) && 0 <= i < n <= 8
    ensures Objects(t.branches[i]) <= BranchObjects(t, n)
  {
    if i < n - 1 {
      BranchObjectsInclude(t, i, n - 1);
    }
  }

  /** Replacing one branch of a well-formed node by a well-formed tree keeps
      it well formed. */
  lemma UpdateWellFormed(t: Tree, b: int, x: Tree)
    requires t.Internal? && WellFormed(t) && WellFormed(x) && 0 <= b < 8
    ensures WellFormed(t.(branches := t.branches[b := x]))
  {
    var u := t.(branches := t.branches[b := x]);
    forall i | 0 <= i < 8 ensures WellFormed(u.branches[i]) {
      assert u.branches[i] == if i == b then x else t.branches[i];
    }
  }

  lemma ObjectsGrow(t: Tree, b: int, x: Tree, m: multiset<Obj>)
    requires t.Internal? && WellFormed(t) && WellFormed(x) && 0 <= b < 8
    requires Objects(x) == Objects(t.branches[b]) + m
    ensures var u := t.(branches := t.branches[b := x]);
      WellFormed(u) && Objects(u) == Objects(t) + m
  {
    BranchObjectsGrow(t, b, x, m, 8);
  }

  /** Below branches that are all empty there are no objects. */
  lemma {:induction false} EmptyBranchesHoldNothing(t: Tree, n: nat)
    requires t.Internal? && WellFormed(t) && n <= 8
    requires forall i :: 0 <= i < n ==> t.branches[i] == Empty
    ensures BranchObjects(t, n) == multiset{}
  {
    if n > 0 {
      EmptyBranchesHoldNothing(t, n - 1);
    }
  }

  /** An object below the first `n` branches is below one of them. */
  lemma {:induction false} InBranchObjects(t: Tree, n: nat, o: Obj) returns (i: int)
    requires t.Internal? && WellFormed(t) && n <= 8 && o in BranchObjects(t, n)
    ensures 0 <= i < n && o in Objects(t.branches[i])
  {
    if o in Objects(t.branches[n - 1]) {
      i := n - 1;
    } else {
      i := InBranchObjects(t, n - 1, o);
    }
  }

  lemma FreshHoldsNothing(c: Point, s: real)
    ensures WellFormed(Internal(c, s, Empties())) && Objects(Internal(c, s, Empties())) == multiset{}
  {
    EmptyBranchesHoldNothing(Internal(c, s, Empties()), 8);
  }

  /** The objects of a non-empty sequence are those before its last and the last. */
  lemma MultisetOfSnoc(objs: seq<Obj>)
    requires objs != []
    ensures multiset(objs) == multiset(objs[..|objs| - 1]) + multiset{objs[|objs| - 1]}
  {
    assert objs == objs[..|objs| - 1] + [objs[|objs| - 1]];
  }

  /** Lookup by an object's own position reaches the leaf that holds it. */
  lemma {:induction false} FindLocates(t: Tree, o: Obj)
    requires WellFormed(t) && Consistent(t) && o in Objects(t)
    ensures Find(t, o.position).Some? && o in Find(t, o.position).value
  {
    match t
    case Leaf(_, _, _) =>
    case Internal(c, _, br) =>
      var i := InBranchObjects(t, 8, o);
      assert FindBranch(c, o.position) == i;
      FindLocates(br[i], o);
  }

  /** Every leaf a lookup reaches holds at most MaxObjectsPerCube objects. */
  lemma {:induction false} FindBounded(t: Tree, p: Point)
    requires WellFormed(t) && Bounded(t)
    ensures Find(t, p).Some? ==> |Find(t, p).value| <= MaxObjectsPerCube
  {
    match t
    case Empty =>
    case Leaf(_, _, _) =>
    case Internal(c, _, br) =>
      FindBounded(br[FindBranch(c, p)], p);
  }


  // ---------------------------------------------------------------------
  // Single-step facts about Insert

  /** An empty slot becomes a leaf holding just `o`, of edge `size`, centred
      `size / 2` from `parent` on each axis, towards `o` (ties to +). */
  lemma InsertIntoEmptySlot(size: real, parent: Point, o: Obj, fuel: nat)
    ensures var r := Insert(Empty, size, parent, o, fuel);
      r.complete && r.tree.Leaf? && r.tree.data == [o] && r.tree.size == size &&
      r.tree.position.x == (if o.position.x >= parent.x then parent.x + size / 2.0 else parent.x - size / 2.0) &&
      r.tree.position.y == (if o.position.y >= parent.y then parent.y + size / 2.0 else parent.y - size / 2.0) &&
      r.tree.position.z == (if o.position.z >= parent.z then parent.z + size / 2.0 else parent.z - size / 2.0)
  {
  }

  /** A leaf below the limit appends `o` after its objects and stays a leaf. */
  lemma InsertAppends(c: Point, s: real, data: seq<Obj>, size: real, parent: Point, o: Obj, fuel: nat)
    requires |data| < MaxObjectsPerCube
    ensures var r := Insert(Leaf(c, s, data), size, parent, o, fuel);
      r.complete && r.tree.Leaf? && r.tree.position == c && r.tree.size == s &&
      |r.tree.data| == |data| + 1 && r.tree.data[..|data|] == data && r.tree.data[|data|] == o
  {
  }

  /** A leaf at the limit subdivides: it becomes a node whose branch `b`
      holds, in order, exactly those of its objects and `o` that FindBranch
      sends to `b`, in a slot of half the size placed by the offset rule. */
  lemma {:induction false} InsertSubdivides(c: Point, s: real, data: seq<Obj>, size: real, parent: Point, o: Obj, fuel: nat)
    requires |data| == MaxObjectsPerCube
    ensures var r := Insert(Leaf(c, s, data), size, parent, o, fuel);
      r.complete ==>
        r.tree.Internal? && r.tree.position == c && r.tree.size == s &&
        Objects(r.tree) == multiset(data) + multiset{o} &&
        forall b :: 0 <= b < 8 ==>
          Distributed(r.tree.branches[b], InBranch(data + [o], c, b)) &&
          (r.tree.branches[b] != Empty ==>
             r.tree.branches[b].size == s / 2.0 && r.tree.branches[b].position == ChildCenter(c, b, s / 4.0))
  {
    var r := Insert(Leaf(c, s, data), size, parent, o, fuel);
    if r.complete {
      SubdivisionKeeps(c, s, data + [o], fuel - 1);
    }
  }

  /** Redistribution of a full leaf's objects and the new one over a freshly
      subdivided node: the facts InsertSubdivides states, for the outcome of InsertAll. */
  lemma SubdivisionKeeps(c: Point, s: real, objs: seq<Obj>, fuel: nat)
    requires |objs| == MaxObjectsPerCube + 1
    requires InsertAll(Internal(c, s, Empties()), objs, fuel).complete
    ensures var u := InsertAll(Internal(c, s, Empties()), objs, fuel).tree;
      u.Internal? && u.position == c && u.size == s &&
      Objects(u) == multiset(objs) &&
      forall b :: 0 <= b < 8 ==>
        Distributed(u.branches[b], InBranch(objs, c, b)) &&
        (u.branches[b] != Empty ==>
           u.branches[b].size == s / 2.0 && u.branches[b].position == ChildCenter(c, b, s / 4.0))
  {
    InsertAllFreshKeeps(c, s, objs, fuel);
    FreshChildrenPlaced(c, s, objs, fuel);
  }

  /** Redistribution over a freshly subdivided node places every non-empty
      child at half the size and at its branch's offset. */
  lemma FreshChildrenPlaced(c: Point, s: real, objs: seq<Obj>, fuel: nat)
    ensures var u := InsertAll(Internal(c, s, Empties()), objs, fuel).tree;
      forall b :: 0 <= b < 8 ==>
        (u.branches[b] != Empty ==>
           u.branches[b].size == s / 2.0 && u.branches[b].position == ChildCenter(c, b, s / 4.0))
  {
    var u := InsertAll(Internal(c, s, Empties()), objs, fuel).tree;
    FreshPlaced(c, s);
    InsertAllKeepsPlacement(Internal(c, s, Empties()), objs, fuel);
    assert Placed(u);
  }

  lemma FreshPlaced(c: Point, s: real)
    ensures WellFormed(Internal(c, s, Empties())) && Placed(Internal(c, s, Empties()))
  {
  }

  /** At an existing subdivided node centred exactly on the object's position
      the insertion stores nothing: the tree comes back unchanged. */
  lemma {:induction false} DropLeavesTreeUnchanged(t: Tree, size: real, parent: Point, o: Obj, fuel: nat)
    requires WellFormed(t) && Drops(t, o.position)
    ensures Insert(t, size, parent, o, fuel).tree == t
  {
    match t
    case Internal(c, s, br) =>
      if c != o.position && fuel > 0 {
        var b := FindBranch(c, o.position);
        DropLeavesTreeUnchanged(br[b], s / 2.0, c, o, fuel - 1);
        assert br[b := br[b]] == br;
      }
  }

  // ---------------------------------------------------------------------
  // Insertion keeps the invariant and loses nothing

  /** Insertion keeps leaves within the limit and every object below its own
      branch, and adds exactly `o` to the objects held. */
  lemma {:induction false} InsertKeeps(t: Tree, size: real, parent: Point, o: Obj, fuel: nat)
    requires WellFormed(t) && Bounded(t) && Consistent(t) && !Drops(t, o.position)
    requires Insert(t, size, parent, o, fuel).complete
    ensures var u := Insert(t, size, parent, o, fuel).tree;
      Bounded(u) && Consistent(u) && Objects(u) == Objects(t) + multiset{o}
    decreases fuel, 1, 0
  {
    match t
    case Empty =>
      assert Insert(t, size, parent, o, fuel).tree.data == [o];
    case Leaf(_, _, _) =>
      LeafKeeps(t, size, parent, o, fuel);
    case Internal(_, _, _) =>
      BranchKeeps(t, o, fuel - 1);
  }

  /** A leaf either appends the object or subdivides and redistributes. */
  lemma {:induction false} LeafKeeps(t: Tree, size: real, parent: Point, o: Obj, fuel: nat)
    requires t.Leaf? && Bounded(t)
    requires Insert(t, size, parent, o, fuel).complete
    ensures var u := Insert(t, size, parent, o, fuel).tree;
      Bounded(u) && Consistent(u) && Objects(u) == Objects(t) + multiset{o}
    decreases fuel, 0, 0
  {
    var data := t.data;
    if |data| < MaxObjectsPerCube {
      assert Insert(t, size, parent, o, fuel).tree.data == data + [o];
    } else {
      assert Insert(t, size, parent, o, fuel) == InsertAll(Internal(t.position, t.size, Empties()), data + [o], fuel - 1);
      InsertAllFreshKeeps(t.position, t.size, data + [o], fuel - 1);
    }
  }

  /** Passing the object down to its branch keeps the invariant. */
  lemma {:induction false} BranchKeeps(t: Tree, o: Obj, fuel: nat)
    requires t.Internal? && WellFormed(t) && Bounded(t) && Consistent(t)
    requires !Drops(t.branches[FindBranch(t.position, o.position)], o.position)
    requires InsertIntoBranch(t, o, fuel).complete
    ensures var u := InsertIntoBranch(t, o, fuel).tree;
      Bounded(u) && Consistent(u) && Objects(u) == Objects(t) + multiset{o}
    decreases fuel, 2, 0
  {
    var b := FindBranch(t.position, o.position);
    var sub := Insert(t.branches[b], t.size / 2.0, t.position, o, fuel);
    InsertKeeps(t.branches[b], t.size / 2.0, t.position, o, fuel);
    KeepsAtBranch(t, b, sub.tree, multiset{o});
  }

  /** Replacing branch `b` of a node by a tree that keeps the invariant and
      holds `m` more objects, all of which belong to `b`, keeps the invariant
      and adds `m` to the node's objects. */
  lemma KeepsAtBranch(t: Tree, b: int, x: Tree, m: multiset<Obj>)
    requires t.Internal? && WellFormed(t) && WellFormed(x) && 0 <= b < 8
    requires Bounded(t) && Consistent(t) && Bounded(x) && Consistent(x)
    requires Objects(x) == Objects(t.branches[b]) + m
    requires forall o :: o in m ==> FindBranch(t.position, o.position) == b
    ensures var u := t.(branches := t.branches[b := x]);
      WellFormed(u) && Bounded(u) && Consistent(u) && Objects(u) == Objects(t) + m
  {
    ObjectsGrow(t, b, x, m);
    var u := t.(branches := t.branches[b := x]);
    forall i | 0 <= i < 8
      ensures Bounded(u.branches[i]) && Consistent(u.branches[i]) &&
              forall o :: o in Objects(u.branches[i]) ==> FindBranch(t.position, o.position) == i
    {
      if i == b {
        forall o | o in Objects(u.branches[i]) ensures FindBranch(t.position, o.position) == i {
          assert o in Objects(t.branches[b]) || o in m;
        }
      }
    }
  }

  /** One more object sent to a branch that holds at most a leaf's worth
      extends that branch's share in order. */
  lemma DistributedStep(child: Tree, f: seq<Obj>, size: real, parent: Point, ob: Obj, fuel: nat)
    requires Distributed(child, f) && |f| <= MaxObjectsPerCube
    requires Insert(child, size, parent, ob, fuel).complete
    ensures Distributed(Insert(child, size, parent, ob, fuel).tree, f + [ob])
    decreases fuel, 1, 0
  {
    if |f| == MaxObjectsPerCube {
      LeafKeeps(child, size, parent, ob, fuel);
    }
  }

  /** Inserting at most one more object than a leaf holds into a freshly
      subdivided node keeps the invariant, holds exactly those objects, and
      distributes them in order over the branches. */
  lemma {:induction false} InsertAllFreshKeeps(c: Point, s: real, objs: seq<Obj>, fuel: nat)
    requires |objs| <= MaxObjectsPerCube + 1
    requires InsertAll(Internal(c, s, Empties()), objs, fuel).complete
    ensures var u := InsertAll(Internal(c, s, Empties()), objs, fuel).tree;
      Bounded(u) && Consistent(u) && Objects(u) == multiset(objs) &&
      forall b :: 0 <= b < 8 ==> Distributed(u.branches[b], InBranch(objs, c, b))
    decreases fuel, 4, |objs|
  {
    if objs == [] {
      FreshHoldsNothing(c, s);
    } else {
      var prev := InsertAll(Internal(c, s, Empties()), objs[..|objs| - 1], fuel);
      InsertAllFreshKeeps(c, s, objs[..|objs| - 1], fuel);
      FreshStep(prev.tree, objs, fuel);
    }
  }

  /** One step of the redistribution: the last object goes to its branch,
      which so far holds at most a leaf's worth. */
  lemma {:induction false} FreshStep(t: Tree, objs: seq<Obj>, fuel: nat)
    requires objs != [] && |objs| <= MaxObjectsPerCube + 1
    requires t.Internal? && WellFormed(t)
    requires Bounded(t) && Consistent(t) && Objects(t) == multiset(objs[..|objs| - 1])
    requires forall b :: 0 <= b < 8 ==> Distributed(t.branches[b], InBranch(objs[..|objs| - 1], t.position, b))
    requires InsertIntoBranch(t, objs[|objs| - 1], fuel).complete
    ensures var u := InsertIntoBranch(t, objs[|objs| - 1], fuel).tree;
      Bounded(u) && Consistent(u) && Objects(u) == multiset(objs) &&
      forall b :: 0 <= b < 8 ==> Distributed(u.branches[b], InBranch(objs, t.position, b))
    decreases fuel, 3, 0
  {
    var init := objs[..|objs| - 1];
    var ob := objs[|objs| - 1];
    var c := t.position;
    var b := FindBranch(c, ob.position);
    var child := t.branches[b];
    BranchKeeps(t, ob, fuel);
    MultisetOfSnoc(objs);
    StepDistributes(t, objs, fuel);
  }

  lemma StepDistributes(t: Tree, objs: seq<Obj>, fuel: nat)
    requires objs != [] && |objs| <= MaxObjectsPerCube + 1
    requires t.Internal? && WellFormed(t)
    requires forall b :: 0 <= b < 8 ==> Distributed(t.branches[b], InBranch(objs[..|objs| - 1], t.position, b))
    requires InsertIntoBranch(t, objs[|objs| - 1], fuel).complete
    ensures var u := InsertIntoBranch(t, objs[|objs| - 1], fuel).tree;
      forall b :: 0 <= b < 8 ==> Distributed(u.branches[b], InBranch(objs, t.position, b))
    decreases fuel, 2, 1
  {
    forall i | 0 <= i < 8
      ensures Distributed(InsertIntoBranch(t, objs[|objs| - 1], fuel).tree.branches[i], InBranch(objs, t.position, i))
    {
      ShareStep(t, objs, fuel, i);
    }
  }

  /** One step of the redistribution extends the share of branch `i` by the
      last object exactly when that object belongs to `i`. */
  lemma ShareStep(t: Tree, objs: seq<Obj>, fuel: nat, i: int)
    requires objs != [] && |objs| <= MaxObjectsPerCube + 1 && 0 <= i < 8
    requires t.Internal? && WellFormed(t)
    requires Distributed(t.branches[i], InBranch(objs[..|objs| - 1], t.position, i))
    requires InsertIntoBranch(t, objs[|objs| - 1], fuel).complete
    ensures Distributed(InsertIntoBranch(t, objs[|objs| - 1], fuel).tree.branches[i], InBranch(objs, t.position, i))
    decreases fuel, 2, 0
  {
    var init := objs[..|objs| - 1];
    var ob := objs[|objs| - 1];
    var c := t.position;
    var b := FindBranch(c, ob.position);
    var u := InsertIntoBranch(t, ob, fuel).tree;
    assert InBranch(objs, c, i) == InBranch(init, c, i) + (if b == i then [ob] else []);
    if i == b {
      assert |InBranch(init, c, b)| <= |init|;
      DistributedStep(t.branches[b], InBranch(init, c, b), t.size / 2.0, c, ob, fuel);
    } else {
      assert u.branches[i] == t.branches[i];
      assert InBranch(init, c, i) + [] == InBranch(init, c, i);
    }
  }

  /** Insertion keeps every child at half its parent's size and at the offset
      its branch index names. */
  lemma {:induction false} InsertKeepsPlacement(t: Tree, size: real, parent: Point, o: Obj, fuel: nat)
    requires WellFormed(t) && Placed(t)
    ensures Placed(Insert(t, size, parent, o, fuel).tree)
    decreases fuel, 1, 0
  {
    match t
    case Empty =>
    case Leaf(c, s, data) =>
      if |data| == MaxObjectsPerCube && fuel > 0 {
        FreshPlaced(c, s);
        InsertAllKeepsPlacement(Internal(c, s, Empties()), data + [o], fuel - 1);
      }
    case Internal(c, _, _) =>
      if c != o.position && fuel > 0 {
        BranchKeepsPlacement(t, o, fuel - 1);
      }
  }

  lemma {:induction false} BranchKeepsPlacement(t: Tree, o: Obj, fuel: nat)
    requires t.Internal? && WellFormed(t) && Placed(t)
    ensures Placed(InsertIntoBranch(t, o, fuel).tree)
    decreases fuel, 2, 0
  {
    var c, s := t.position, t.size;
    var b := FindBranch(c, o.position);
    InsertKeepsPlacement(t.branches[b], s / 2.0, c, o, fuel);
    var u := InsertIntoBranch(t, o, fuel).tree;
    forall i | 0 <= i < 8 ensures Placed(u.branches[i]) &&
      (u.branches[i] != Empty ==> u.branches[i].size == s / 2.0 && u.branches[i].position == ChildCenter(c, i, s / 4.0))
    {
    }
  }

  lemma {:induction false} InsertAllKeepsPlacement(t: Tree, objs: seq<Obj>, fuel: nat)
    requires t.Internal? && WellFormed(t) && Placed(t)
    ensures Placed(InsertAll(t, objs, fuel).tree)
    decreases fuel, 3, |objs|
  {
    if objs != [] {
      InsertAllKeepsPlacement(t, objs[..|objs| - 1], fuel);
      BranchKeepsPlacement(InsertAll(t, objs[..|objs| - 1], fuel).tree, objs[|objs| - 1], fuel);
    }
  }

  /** Insertion into a tree satisfying the invariant, when it completes and
      does not stop at a node centred on the object, keeps the invariant,
      stores the object where lookup by its position finds it, and loses no
      object stored before. */
  lemma InsertThenFind(t: Tree, size: real, parent: Point, o: Obj, fuel: nat)
    requires Inv(t) && !Drops(t, o.position)
    requires Insert(t, size, parent, o, fuel).complete
    ensures var u := Insert(t, size, parent, o, fuel).tree;
      Inv(u) && Objects(u) == Objects(t) + multiset{o} &&
      Find(u, o.position).Some? && o in Find(u, o.position).value &&
      forall x :: x in Objects(t) ==> Find(u, x.position).Some? && x in Find(u, x.position).value
  {
    var u := Insert(t, size, parent, o, fuel).tree;
    InsertKeeps(t, size, parent, o, fuel);
    InsertKeepsPlacement(t, size, parent, o, fuel);
    FindLocates(u, o);
    forall x | x in Objects(t) ensures Find(u, x.position).Some? && x in Find(u, x.position).value {
      FindLocates(u, x);
    }
  }

  // ---------------------------------------------------------------------
  // Subdivision is one-way

  lemma {:induction false} ExtendsReflexive(t: Tree)
    requires WellFormed(t)
    ensures Extends(t, t)
  {
    match t
    case Internal(_, _, br) =>
      forall i | 0 <= i < 8 ensures Extends(br[i], br[i]) {
        ExtendsReflexive(br[i]);
      }
    case _ =>
  }

  lemma {:induction false} ExtendsTransitive(t: Tree, u: Tree, v: Tree)
    requires WellFormed(t) && WellFormed(u) && WellFormed(v)
    requires Extends(t, u) && Extends(u, v)
    ensures Extends(t, v)
  {
    match t
    case Internal(_, _, br) =>
      forall i | 0 <= i < 8 ensures Extends(br[i], v.branches[i]) {
        ExtendsTransitive(br[i], u.branches[i], v.branches[i]);
      }
    case _ =>
  }

  /** Insertion only grows the tree: no node reverts from subdivided to
      leaf, none is removed or moved, and leaves only gain objects at the end. */
  lemma {:induction false} InsertExtends(t: Tree, size: real, parent: Point, o: Obj, fuel: nat)
    requires WellFormed(t)
    ensures Extends(t, Insert(t, size, parent, o, fuel).tree)
    decreases fuel, 1, 0
  {
    match t
    case Empty =>
    case Leaf(_, _, _) =>
    case Internal(c, _, _) =>
      if c == o.position || fuel == 0 {
        ExtendsReflexive(t);
      } else {
        BranchExtends(t, o, fuel - 1);
      }
  }

  lemma {:induction false} BranchExtends(t: Tree, o: Obj, fuel: nat)
    requires t.Internal? && WellFormed(t)
    ensures Extends(t, InsertIntoBranch(t, o, fuel).tree)
    decreases fuel, 2, 0
  {
    var b := FindBranch(t.position, o.position);
    InsertExtends(t.branches[b], t.size / 2.0, t.position, o, fuel);
    var u := InsertIntoBranch(t, o, fuel).tree;
    forall i | 0 <= i < 8 ensures Extends(t.branches[i], u.branches[i]) {
      if i != b {
        ExtendsReflexive(t.branches[i]);
      }
    }
  }

  lemma {:induction false} InsertAllExtends(t: Tree, objs: seq<Obj>, fuel: nat)
    requires t.Internal? && WellFormed(t)
    ensures Extends(t, InsertAll(t, objs, fuel).tree)
    decreases fuel, 3, |objs|
  {
    if objs == [] {
      ExtendsReflexive(t);
    } else {
      var prev := InsertAll(t, objs[..|objs| - 1], fuel);
      InsertAllExtends(t, objs[..|objs| - 1], fuel);
      BranchExtends(prev.tree, objs[|objs| - 1], fuel);
      ExtendsTransitive(t, prev.tree, InsertAll(t, objs, fuel).tree);
    }
  }

  // ---------------------------------------------------------------------
  // The recursion budget

  /** The budget only bounds the recursion: an insertion that completes
      gives the same result with any larger budget. */
  lemma {:induction false} FuelMonotone(t: Tree, size: real, parent: Point, o: Obj, fuel: nat, more: nat)
    requires WellFormed(t) && fuel <= more
    requires Insert(t, size, parent, o, fuel).complete
    ensures Insert(t, size, parent, o, more) == Insert(t, size, parent, o, fuel)
    decreases fuel, 1, 0
  {
    match t
    case Empty =>
    case Leaf(c, s, data) =>
      if |data| == MaxObjectsPerCube {
        InsertAllFuelMonotone(Internal(c, s, Empties()), data + [o], fuel - 1, more - 1);
      }
    case Internal(c, _, _) =>
      if c != o.position {
        BranchFuelMonotone(t, o, fuel - 1, more - 1);
      }
  }

  lemma {:induction false} BranchFuelMonotone(t: Tree, o: Obj, fuel: nat, more: nat)
    requires t.Internal? && WellFormed(t) && fuel <= more
    requires InsertIntoBranch(t, o, fuel).complete
    ensures InsertIntoBranch(t, o, more) == InsertIntoBranch(t, o, fuel)
    decreases fuel, 2, 0
  {
    FuelMonotone(t.branches[FindBranch(t.position, o.position)], t.size / 2.0, t.position, o, fuel, more);
  }

  lemma {:induction false} InsertAllFuelMonotone(t: Tree, objs: seq<Obj>, fuel: nat, more: nat)
    requires t.Internal? && WellFormed(t) && fuel <= more
    requires InsertAll(t, objs, fuel).complete
    ensures InsertAll(t, objs, more) == InsertAll(t, objs, fuel)
    decreases fuel, 3, |objs|
  {
    if objs != [] {
      InsertAllFuelMonotone(t, objs[..|objs| - 1], fuel, more);
      BranchFuelMonotone(InsertAll(t, objs[..|objs| - 1], fuel).tree, objs[|objs| - 1], fuel, more);
    }
  }

  /** Objects that FindBranch all sends to one branch `b` fill that branch
      of a freshly subdivided node, in order, in a leaf of half the size. */
  lemma {:induction false} OneBranchFill(c: Point, s: real, objs: seq<Obj>, b: int, fuel: nat)
    requires 1 <= |objs| <= MaxObjectsPerCube && 0 <= b < 8
    requires forall i :: 0 <= i < |objs| ==> FindBranch(c, objs[i].position) == b
    ensures InsertAll(Internal(c, s, Empties()), objs, fuel).tree
      == Internal(c, s, Empties()[b := Leaf(ChildCenter(c, b, s / 4.0), s / 2.0, objs)])
  {
    var start := Internal(c, s, Empties());
    var init := objs[..|objs| - 1];
    var ob := objs[|objs| - 1];
    var prev := InsertAll(start, init, fuel);
    assert InsertAll(start, objs, fuel).tree == InsertIntoBranch(prev.tree, ob, fuel).tree;
    assert FindBranch(c, ob.position) == b;
    if |objs| > 1 {
      OneBranchFill(c, s, init, b, fuel);
      assert prev.tree.branches[b] == Leaf(ChildCenter(c, b, s / 4.0), s / 2.0, init);
      assert Insert(prev.tree.branches[b], s / 2.0, c, ob, fuel).tree
        == Leaf(ChildCenter(c, b, s / 4.0), s / 2.0, init + [ob]);
      assert init + [ob] == objs;
      assert prev.tree.branches[b := Leaf(ChildCenter(c, b, s / 4.0), s / 2.0, objs)]
        == Empties()[b := Leaf(ChildCenter(c, b, s / 4.0), s / 2.0, objs)];
    } else {
      assert init == [];
      assert prev.tree == start;
      assert s / 2.0 / 2.0 == s / 4.0;
      assert Insert(Empty, s / 2.0, c, ob, fuel).tree == Leaf(ChildCenter(c, b, s / 4.0), s / 2.0, [ob]);
      assert InsertIntoBranch(start, ob, fuel).tree == Internal(c, s, Empties()[b := Leaf(ChildCenter(c, b, s / 4.0), s / 2.0, [ob])]);
      assert [ob] == objs;
    }
  }

  /** More objects than a leaf holds, all at one position, are never
      separated: inserting the eleventh into a full leaf of coincident
      objects subdivides again and again and never completes, whatever the
      budget. */
  lemma {:induction false} CoincidentNeverCompletes(c: Point, s: real, data: seq<Obj>, size: real, parent: Point, o: Obj, fuel: nat)
    requires |data| == MaxObjectsPerCube
    requires forall i :: 0 <= i < |data| ==> data[i].position == o.position
    ensures !Insert(Leaf(c, s, data), size, parent, o, fuel).complete
    decreases fuel
  {
    if fuel > 0 {
      var objs := data + [o];
      var start := Internal(c, s, Empties());
      assert objs[..|objs| - 1] == data;
      var prev := InsertAll(start, data, fuel - 1);
      assert Insert(Leaf(c, s, data), size, parent, o, fuel)
        == Outcome(InsertIntoBranch(prev.tree, o, fuel - 1).tree,
                   prev.complete && InsertIntoBranch(prev.tree, o, fuel - 1).complete);
      var b := FindBranch(c, o.position);
      OneBranchFill(c, s, data, b, fuel - 1);
      assert prev.tree.branches[b] == Leaf(ChildCenter(c, b, s / 4.0), s / 2.0, data);
      CoincidentNeverCompletes(ChildCenter(c, b, s / 4.0), s / 2.0, data, s / 2.0, c, o, fuel - 1);
    }
  }

  /** Without a bounds check, positions need not coincide to recurse without
      end: when the eleventh object arrives at a full leaf and all eleven lie
      at or beyond the upper corner of its cube, every subdivision sends them
      all to branch 7, whose cube has the same upper corner. The insertion
      never completes, whatever the budget. */
  lemma {:induction false} BeyondCornerNeverCompletes(c: Point, s: real, data: seq<Obj>, size: real, parent: Point, o: Obj, fuel: nat)
    requires |data| == MaxObjectsPerCube && s >= 0.0
    requires AtMost(Upper(c, s), o.position)
    requires forall i :: 0 <= i < |data| ==> AtMost(Upper(c, s), data[i].position)
    ensures !Insert(Leaf(c, s, data), size, parent, o, fuel).complete
    decreases fuel
  {
    if fuel > 0 {
      var objs := data + [o];
      var start := Internal(c, s, Empties());
      assert objs[..|objs| - 1] == data;
      var prev := InsertAll(start, data, fuel - 1);
      assert Insert(Leaf(c, s, data), size, parent, o, fuel)
        == Outcome(InsertIntoBranch(prev.tree, o, fuel - 1).tree,
                   prev.complete && InsertIntoBranch(prev.tree, o, fuel - 1).complete);
      OneBranchFill(c, s, data, 7, fuel - 1);
      assert FindBranch(c, o.position) == 7;
      var c' := ChildCenter(c, 7, s / 4.0);
      assert prev.tree.branches[7] == Leaf(c', s / 2.0, data);
      assert Upper(c', s / 2.0) == Upper(c, s);
      BeyondCornerNeverCompletes(c', s / 2.0, data, s / 2.0, c, o, fuel - 1);
    }
  }

  /** A full leaf whose objects and the new one leave no branch with more
      than a leaf's worth subdivides once and completes: every object lands
      in an empty slot or a leaf below the limit, so no further budget is
      spent. */
  lemma SubdivisionCompletes(c: Point, s: real, data: seq<Obj>, size: real, parent: Point, o: Obj, fuel: nat)
    requires |data| == MaxObjectsPerCube && fuel >= 1
    requires forall b :: 0 <= b < 8 ==> |InBranch(data + [o], c, b)| <= MaxObjectsPerCube
    ensures Insert(Leaf(c, s, data), size, parent, o, fuel).complete
  {
    FreshInsertAllCompletes(c, s, data + [o], fuel - 1);
  }

  /** Redistribution over a freshly subdivided node completes, whatever the
      budget, when no branch receives more than a leaf's worth. */
  lemma {:induction false} FreshInsertAllCompletes(c: Point, s: real, objs: seq<Obj>, fuel: nat)
    requires |objs| <= MaxObjectsPerCube + 1
    requires forall b :: 0 <= b < 8 ==> |InBranch(objs, c, b)| <= MaxObjectsPerCube
    ensures InsertAll(Internal(c, s, Empties()), objs, fuel).complete
    decreases |objs|
  {
    if objs != [] {
      var init := objs[..|objs| - 1];
      var ob := objs[|objs| - 1];
      forall b | 0 <= b < 8 ensures |InBranch(init, c, b)| <= MaxObjectsPerCube {
        InBranchOfPrefix(objs, c, b);
      }
      FreshInsertAllCompletes(c, s, init, fuel);
      var prev := InsertAll(Internal(c, s, Empties()), init, fuel);
      InsertAllFreshKeeps(c, s, init, fuel);
      var b := FindBranch(c, ob.position);
      InBranchOfPrefix(objs, c, b);
      RoomyStepCompletes(prev.tree, InBranch(init, c, b), ob, fuel);
    }
  }

  /** Passing an object down to a branch that holds fewer objects than a
      leaf's worth completes without spending budget. */
  lemma RoomyStepCompletes(t: Tree, f: seq<Obj>, ob: Obj, fuel: nat)
    requires t.Internal? && WellFormed(t) && |f| < MaxObjectsPerCube
    requires Distributed(t.branches[FindBranch(t.position, ob.position)], f)
    ensures InsertIntoBranch(t, ob, fuel).complete
  {
  }

  /** The share of a branch grows by the last object exactly when that
      object belongs to the branch. */
  lemma InBranchOfPrefix(objs: seq<Obj>, c: Point, b: int)
    requires objs != []
    ensures |InBranch(objs, c, b)|
      == |InBranch(objs[..|objs| - 1], c, b)| + (if FindBranch(c, objs[|objs| - 1].position) == b then 1 else 0)
  {
  }
}
