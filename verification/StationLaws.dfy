/**
 * What the station tree guarantees: insertion and deletion keep it an AVL tree and do to the
 * map of stations what they say; lookups find the map's entries in few steps; and deletion as
 * written keeps the tree balanced exactly when no node on its way needs a rotation.
 */
module StationLaws {
  import opened Bits
  import opened Wire
  import opened Wrappers
  import opened StationTree

  // ---------------------------------------------------------------- entries

  /** The node found is the entry of the tree for the address. */
  lemma {:induction false} FindIsEntry(t: Tree, key: Mac)
    requires Ordered(t)
    ensures Find(t, key).Node? ==> Find(t, key).key == key && (key, Find(t, key).station) in Items(t)
    ensures forall e <- Items(t) :: e.0 == key ==> Find(t, key).Node? && e.1 == Find(t, key).station
  {
    if t.Node? {
      ValueIsInjective(key, t.key);
      FindIsEntry(t.left, key);
      FindIsEntry(t.right, key);
    }
  }

  /** As a map the tree has exactly its items. */
  lemma {:induction false} MapHasItems(t: Tree)
    requires Ordered(t)
    ensures forall e <- Items(t) :: e.0 in AsMap(t) && AsMap(t)[e.0] == e.1
    ensures forall k <- AsMap(t) :: (k, AsMap(t)[k]) in Items(t)
  {
    if t.Node? {
      MapHasItems(t.left);
      MapHasItems(t.right);
    }
  }

  /** The smallest entry of a tree */
  lemma {:induction false} MinIsLeast(t: Tree)
    requires t.Node? && Ordered(t)
    ensures var s := MinNode(t);
            && (s.key, s.station) in Items(t) && Find(t, s.key) == s
            && (forall e <- Items(t) :: e == (s.key, s.station) || Value(s.key) < Value(e.0))
  {
    if t.left.Node? { MinIsLeast(t.left); }
  }

  // ---------------------------------------------------------------- rotations

  lemma NodeIsOrdered(l: Tree, key: Mac, station: Station, r: Tree, entries: set<(Mac, Station)>)
    requires Ordered(l) && Ordered(r)
    requires forall e <- Items(l) :: Value(e.0) < Value(key)
    requires forall e <- Items(r) :: Value(key) < Value(e.0)
    requires entries == Items(l) + {(key, station)} + Items(r)
    ensures Ordered(Mk(l, key, station, r)) && Items(Mk(l, key, station, r)) == entries
  {}

  lemma RotateWithLeftKeeps(t: Tree)
    requires t.Node? && t.left.Node? && Ordered(t)
    ensures Items(RotateWithLeft(t).tree) == Items(t) && Ordered(RotateWithLeft(t).tree)
  {
    var k1, k2 := t.left, t;
    assert (k1.key, k1.station) in Items(k1);
    assert forall e <- Items(k1.right) :: e in Items(k1);
    var lower := Items(k1.right) + {(k2.key, k2.station)} + Items(k2.right);
    NodeIsOrdered(k1.right, k2.key, k2.station, k2.right, lower);
    assert Items(t) == Items(k1.left) + {(k1.key, k1.station)} + lower;
    NodeIsOrdered(k1.left, k1.key, k1.station, Mk(k1.right, k2.key, k2.station, k2.right), Items(t));
  }

  lemma RotateWithRightKeeps(t: Tree)
    requires t.Node? && t.right.Node? && Ordered(t)
    ensures Items(RotateWithRight(t).tree) == Items(t) && Ordered(RotateWithRight(t).tree)
  {
    var k1, k2 := t, t.right;
    assert (k2.key, k2.station) in Items(k2);
    assert forall e <- Items(k2.left) :: e in Items(k2);
    var lower := Items(k1.left) + {(k1.key, k1.station)} + Items(k2.left);
    NodeIsOrdered(k1.left, k1.key, k1.station, k2.left, lower);
    assert Items(t) == lower + {(k2.key, k2.station)} + Items(k2.right);
    NodeIsOrdered(Mk(k1.left, k1.key, k1.station, k2.left), k2.key, k2.station, k2.right, Items(t));
  }

  lemma DoubleWithLeftKeeps(t: Tree)
    requires t.Node? && t.left.Node? && t.left.right.Node? && Ordered(t)
    ensures DoubleWithLeft(t).Ok?
    ensures Items(DoubleWithLeft(t).tree) == Items(t) && Ordered(DoubleWithLeft(t).tree)
  {
    RotateWithRightKeeps(t.left);
    RotateWithLeftKeeps(t.(left := RotateWithRight(t.left).tree));
  }

  lemma DoubleWithRightKeeps(t: Tree)
    requires t.Node? && t.right.Node? && t.right.left.Node? && Ordered(t)
    ensures DoubleWithRight(t).Ok?
    ensures Items(DoubleWithRight(t).tree) == Items(t) && Ordered(DoubleWithRight(t).tree)
  {
    RotateWithLeftKeeps(t.right);
    RotateWithRightKeeps(t.(right := RotateWithLeft(t.right).tree));
  }

  /** Heights are right and balances small. */
  predicate Shaped(t: Tree) {
    Exact(t) && Balanced(t)
  }

  /** Height fields of exact trees are at least -1, and an exact tree of height at least 0 is a node. */
  lemma {:induction false} HeightIsDepth(t: Tree)
    requires Exact(t)
    ensures H(t) >= -1 && (H(t) >= 0 <==> t.Node?)
  {
    if t.Node? {
      HeightIsDepth(t.left);
      HeightIsDepth(t.right);
    }
  }

  /** One rotation repairs a node that is two too high on its outer left side. */
  lemma SingleLeftShape(t: Tree)
    requires t.Node? && Shaped(t.left) && Shaped(t.right)
    requires H(t.left) == H(t.right) + 2 && Balance(t.left) >= 0
    ensures t.left.Node?
    ensures var r := RotateWithLeft(t).tree;
            Shaped(r) && H(r) == H(t.left) + (if Balance(t.left) == 0 then 1 else 0) && r == Refresh(r)
            && Balance(r) == if Balance(t.left) == 0 then -1 else 0
  {
    HeightIsDepth(t.left);
    HeightIsDepth(t.right);
  }

  lemma SingleRightShape(t: Tree)
    requires t.Node? && Shaped(t.left) && Shaped(t.right)
    requires H(t.right) == H(t.left) + 2 && Balance(t.right) <= 0
    ensures t.right.Node?
    ensures var r := RotateWithRight(t).tree;
            Shaped(r) && H(r) == H(t.right) + (if Balance(t.right) == 0 then 1 else 0) && r == Refresh(r)
            && Balance(r) == if Balance(t.right) == 0 then 1 else 0
  {
    HeightIsDepth(t.left);
    HeightIsDepth(t.right);
  }

  /** The double rotation repairs a node that is two too high on its inner left side. */
  lemma DoubleLeftShape(t: Tree)
    requires t.Node? && Shaped(t.left) && Shaped(t.right)
    requires H(t.left) == H(t.right) + 2 && Balance(t.left) < 0
    ensures t.left.Node? && t.left.right.Node?
    ensures var r := DoubleWithLeft(t).tree;
            Shaped(r) && H(r) == H(t.left) && r == Refresh(r) && Balance(r) == 0
  {
    HeightIsDepth(t.right);
    HeightIsDepth(t.left);
    HeightIsDepth(t.left.left);
    HeightIsDepth(t.left.right);
    var g := t.left.right;
    assert Shaped(g) && Shaped(g.left) && Shaped(g.right) && Shaped(t.left.left);
  }

  lemma DoubleRightShape(t: Tree)
    requires t.Node? && Shaped(t.left) && Shaped(t.right)
    requires H(t.right) == H(t.left) + 2 && Balance(t.right) > 0
    ensures t.right.Node? && t.right.left.Node?
    ensures var r := DoubleWithRight(t).tree;
            Shaped(r) && H(r) == H(t.right) && r == Refresh(r) && Balance(r) == 0
  {
    HeightIsDepth(t.left);
    HeightIsDepth(t.right);
    HeightIsDepth(t.right.left);
    HeightIsDepth(t.right.right);
    var g := t.right.left;
    assert Shaped(g) && Shaped(g.left) && Shaped(g.right) && Shaped(t.right.right);
  }

  // ---------------------------------------------------------------- insertion

  /** What an insertion leaves: a well-shaped tree that is at most one higher */
  ghost predicate Grown(before: Tree, after: Tree) {
    Shaped(after) && H(before) <= H(after) <= H(before) + 1
  }

  /**
   * Where the new node went: a tree that has grown is a single node or leans to one side,
   * and that is the side of the new key.
   */
  ghost predicate LeansTo(t: Tree, key: Mac) {
    t.Node? && (if Value(key) < Value(t.key) then Balance(t) == 1
                else if Value(key) > Value(t.key) then Balance(t) == -1
                else H(t) == 0)
  }

  lemma InsertLeftShape(t: Tree, child: Tree, key: Mac)
    requires t.Node? && Shaped(t) && child.Node? && Grown(t.left, child)
    requires H(child) > H(t.left) ==> LeansTo(child, key)
    requires Value(key) < Value(t.key) && Ordered(t.(left := child))
    ensures var r := AfterInsertLeft(t.(left := child), key);
            && r.Ok? && Grown(t, r.tree) && Ordered(r.tree)
            && Items(r.tree) == Items(t.(left := child))
            && (H(r.tree) > H(t) ==> LeansTo(r.tree, key))
            && (child == t.left ==> r.tree == t)
  {
    var u := t.(left := child);
    HeightIsDepth(t.left);
    HeightIsDepth(t.right);
    if H(child) - H(t.right) == 2 {
      if Value(key) < Value(child.key) {
        SingleLeftShape(u);
        RotateWithLeftKeeps(u);
      } else {
        DoubleLeftShape(u);
        DoubleWithLeftKeeps(u);
      }
    }
  }

  lemma InsertRightShape(t: Tree, child: Tree, key: Mac)
    requires t.Node? && Shaped(t) && child.Node? && Grown(t.right, child)
    requires H(child) > H(t.right) ==> LeansTo(child, key)
    requires Value(key) > Value(t.key) && Ordered(t.(right := child))
    ensures var r := AfterInsertRight(t.(right := child), key);
            && r.Ok? && Grown(t, r.tree) && Ordered(r.tree)
            && Items(r.tree) == Items(t.(right := child))
            && (H(r.tree) > H(t) ==> LeansTo(r.tree, key))
            && (child == t.right ==> r.tree == t)
  {
    var u := t.(right := child);
    HeightIsDepth(t.left);
    HeightIsDepth(t.right);
    if H(child) - H(t.left) == 2 {
      if Value(key) > Value(child.key) {
        SingleRightShape(u);
        RotateWithRightKeeps(u);
      } else {
        DoubleRightShape(u);
        DoubleWithRightKeeps(u);
      }
    }
  }

  /** The entries after an insertion: a key that is there already keeps its station. */
  ghost function WithEntry(t: Tree, key: Mac, station: Station): set<(Mac, Station)> {
    if Find(t, key).Node? then Items(t) else Items(t) + {(key, station)}
  }

  lemma EntryOnLeft(t: Tree, child: Tree, key: Mac, station: Station)
    requires t.Node? && Ordered(t) && Ordered(child) && Value(key) < Value(t.key)
    requires Items(child) == WithEntry(t.left, key, station)
    ensures Ordered(t.(left := child)) && Items(t.(left := child)) == WithEntry(t, key, station)
  {}

  lemma EntryOnRight(t: Tree, child: Tree, key: Mac, station: Station)
    requires t.Node? && Ordered(t) && Ordered(child) && Value(key) > Value(t.key)
    requires Items(child) == WithEntry(t.right, key, station)
    ensures Ordered(t.(right := child)) && Items(t.(right := child)) == WithEntry(t, key, station)
  {}

  /** What the theorem on insertion says of a tree and the result */
  ghost predicate Inserted(t: Tree, key: Mac, station: Station, r: Tree) {
    && AVL(r) && Grown(t, r)
    && (H(r) > H(t) ==> LeansTo(r, key))
    && Items(r) == WithEntry(t, key, station)
    && (Find(t, key).Node? ==> r == t)
  }

  lemma InsertOnLeft(t: Tree, child: Tree, key: Mac, station: Station)
    requires AVL(t) && t.Node? && Value(key) < Value(t.key)
    requires child.Node? && Inserted(t.left, key, station, child)
    ensures var r := AfterInsertLeft(t.(left := child), key);
            r.Ok? && Inserted(t, key, station, r.tree)
  {
    EntryOnLeft(t, child, key, station);
    InsertLeftShape(t, child, key);
  }

  lemma InsertOnRight(t: Tree, child: Tree, key: Mac, station: Station)
    requires AVL(t) && t.Node? && Value(key) > Value(t.key)
    requires child.Node? && Inserted(t.right, key, station, child)
    ensures var r := AfterInsertRight(t.(right := child), key);
            r.Ok? && Inserted(t, key, station, r.tree)
  {
    EntryOnRight(t, child, key, station);
    InsertRightShape(t, child, key);
  }

  /**
   * Insertion into an AVL tree never follows a NULL pointer, gives an AVL tree that is at most
   * one higher, and adds exactly the new entry.
   */
  lemma {:induction false} InsertKeepsAVL(t: Tree, key: Mac, station: Station)
    requires AVL(t)
    ensures Insert(t, key, station).Ok? && Inserted(t, key, station, Insert(t, key, station).tree)
  {
    if t.Node? {
      if Value(key) < Value(t.key) {
        InsertKeepsAVL(t.left, key, station);
        InsertOnLeft(t, Insert(t.left, key, station).tree, key, station);
      } else if Value(key) > Value(t.key) {
        InsertKeepsAVL(t.right, key, station);
        InsertOnRight(t, Insert(t.right, key, station).tree, key, station);
      }
    }
  }

  /** A tree is the map that has its items. */
  lemma MapIs(t: Tree, m: map<Mac, Station>)
    requires Ordered(t)
    requires forall e <- Items(t) :: e.0 in m && m[e.0] == e.1
    requires forall k <- m :: (k, m[k]) in Items(t)
    ensures AsMap(t) == m
  {
    MapHasItems(t);
    assert forall k <- m :: k in AsMap(t) && AsMap(t)[k] == m[k];
  }

  /** As maps: the old map with the new entry, or the same map when the key was there */
  lemma InsertAddsToMap(t: Tree, key: Mac, station: Station)
    requires AVL(t)
    ensures Insert(t, key, station).Ok?
    ensures AsMap(Insert(t, key, station).tree)
         == if key in AsMap(t) then AsMap(t) else AsMap(t)[key := station]
  {
    InsertKeepsAVL(t, key, station);
    FindIsEntry(t, key);
    MapHasItems(t);
    if key !in AsMap(t) {
      MapIs(Insert(t, key, station).tree, AsMap(t)[key := station]);
    }
  }

  // ---------------------------------------------------------------- deletion with the intended rotations

  /** The end of a deletion repairs a node whose balance is off by at most one. */
  lemma FinishRepairs(u: Tree)
    requires u.Node? && Ordered(u) && Shaped(u.left) && Shaped(u.right) && -2 <= Balance(u) <= 2
    ensures Finish(u, Intended).Ok?
    ensures var r := Finish(u, Intended).tree;
            && Ordered(r) && Shaped(r) && Items(r) == Items(u)
            && H(Refresh(u)) - 1 <= H(r) <= H(Refresh(u))
            && (-1 <= Balance(u) <= 1 ==> r == Refresh(u))
  {
    var t := Refresh(u);
    HeightIsDepth(t.left);
    HeightIsDepth(t.right);
    if Balance(t) > 1 {
      if Balance(t.left) >= 0 {
        SingleLeftShape(t);
        RotateWithLeftKeeps(t);
      } else {
        DoubleLeftShape(t);
        DoubleWithLeftKeeps(t);
      }
    } else if Balance(t) < -1 {
      if Balance(t.right) <= 0 {
        SingleRightShape(t);
        RotateWithRightKeeps(t);
      } else {
        DoubleRightShape(t);
        DoubleWithRightKeeps(t);
      }
    }
  }

  /** The entry a deletion asks for is there and its radio is the one asked for. */
  predicate Found(t: Tree, key: Mac, radio: Option<int>) {
    Find(t, key).Node? && Matches(Find(t, key).station, radio)
  }

  ghost function WithoutEntry(t: Tree, key: Mac, radio: Option<int>): set<(Mac, Station)> {
    if Found(t, key, radio) then Items(t) - {(key, Find(t, key).station)} else Items(t)
  }

  /** What the theorem on deletion says of a tree and the result */
  ghost predicate Removed(t: Tree, key: Mac, radio: Option<int>, r: Tree) {
    && AVL(r) && H(t) - 1 <= H(r) <= H(t)
    && Items(r) == WithoutEntry(t, key, radio)
    && (!Found(t, key, radio) ==> r == t)
  }

  lemma EntryOffLeft(t: Tree, child: Tree, key: Mac, radio: Option<int>)
    requires t.Node? && Ordered(t) && Ordered(child) && Value(key) < Value(t.key)
    requires Items(child) == WithoutEntry(t.left, key, radio)
    ensures Ordered(t.(left := child)) && Items(t.(left := child)) == WithoutEntry(t, key, radio)
  {}

  lemma EntryOffRight(t: Tree, child: Tree, key: Mac, radio: Option<int>)
    requires t.Node? && Ordered(t) && Ordered(child) && Value(key) > Value(t.key)
    requires Items(child) == WithoutEntry(t.right, key, radio)
    ensures Ordered(t.(right := child)) && Items(t.(right := child)) == WithoutEntry(t, key, radio)
  {}

  lemma DeleteOnLeft(t: Tree, child: Tree, key: Mac, radio: Option<int>)
    requires AVL(t) && t.Node? && Value(key) < Value(t.key) && Removed(t.left, key, radio, child)
    ensures var r := Finish(t.(left := child), Intended);
            r.Ok? && Removed(t, key, radio, r.tree)
  {
    EntryOffLeft(t, child, key, radio);
    FinishRepairs(t.(left := child));
  }

  lemma DeleteOnRight(t: Tree, child: Tree, key: Mac, radio: Option<int>)
    requires AVL(t) && t.Node? && Value(key) > Value(t.key) && Removed(t.right, key, radio, child)
    ensures var r := Finish(t.(right := child), Intended);
            r.Ok? && Removed(t, key, radio, r.tree)
  {
    EntryOffRight(t, child, key, radio);
    FinishRepairs(t.(right := child));
  }

  /** A well-shaped node is left as it is. */
  lemma FinishIsRefresh(u: Tree)
    requires u.Node? && -1 <= Balance(u) <= 1
    ensures Finish(u, AsWritten) == Finish(u, Intended) == Ok(Refresh(u))
    ensures Exact(u) ==> Refresh(u) == u
  {}

  lemma SpliceEntries(t: Tree, child: Tree)
    requires t.Node? && Ordered(t)
    requires (t.left.Leaf? && child == t.right) || (t.right.Leaf? && child == t.left)
    ensures Items(child) == Items(t) - {(t.key, t.station)}
  {}

  /** A node with at most one child is replaced by that child. */
  lemma DeleteSplice(t: Tree, key: Mac, radio: Option<int>, child: Tree)
    requires AVL(t) && t.Node? && key == t.key && Matches(t.station, radio) && child.Node?
    requires (t.left.Leaf? && child == t.right) || (t.right.Leaf? && child == t.left)
    ensures Finish(child, Intended) == Finish(child, AsWritten) == Ok(child)
    ensures Removed(t, key, radio, child) && H(child) == H(t) - 1
  {
    assert AVL(child);
    HeightIsDepth(child);
    FinishIsRefresh(child);
    SpliceEntries(t, child);
  }

  /** A node with two children takes over its successor. */
  lemma SuccessorEntries(t: Tree, child: Tree)
    requires Ordered(t) && t.Node? && t.right.Node? && Ordered(child)
    requires var s := MinNode(t.right); Items(child) == Items(t.right) - {(s.key, s.station)}
    ensures var s := MinNode(t.right);
            var u := t.(key := s.key, station := s.station, right := child);
            Ordered(u) && Items(u) == Items(t) - {(t.key, t.station)}
  {
    MinIsLeast(t.right);
  }

  lemma DeleteSuccessor(t: Tree, key: Mac, radio: Option<int>, child: Tree)
    requires AVL(t) && t.Node? && t.left.Node? && t.right.Node? && key == t.key && Matches(t.station, radio)
    requires var s := MinNode(t.right);
             Removed(t.right, s.key, SuccessorRadio(radio, s.station), child)
    ensures var s := MinNode(t.right);
            var r := Finish(t.(key := s.key, station := s.station, right := child), Intended);
            r.Ok? && Removed(t, key, radio, r.tree)
  {
    var s := MinNode(t.right);
    MinIsLeast(t.right);
    SuccessorEntries(t, child);
    FinishRepairs(t.(key := s.key, station := s.station, right := child));
  }

  /**
   * With the intended rotations, deletion from an AVL tree never follows a NULL pointer, gives
   * an AVL tree that is at most one lower, and removes exactly the entry whose address and
   * radio match; without a match the tree itself is unchanged.
   */
  lemma {:induction false} DeleteKeepsAVL(t: Tree, key: Mac, radio: Option<int>)
    requires AVL(t)
    ensures Delete(t, key, radio, Intended).Ok?
    ensures Removed(t, key, radio, Delete(t, key, radio, Intended).tree)
    decreases t
  {
    if t.Node? {
      ValueIsInjective(key, t.key);
      if Value(key) < Value(t.key) {
        DeleteKeepsAVL(t.left, key, radio);
        DeleteOnLeft(t, Delete(t.left, key, radio, Intended).tree, key, radio);
      } else if Value(key) > Value(t.key) {
        DeleteKeepsAVL(t.right, key, radio);
        DeleteOnRight(t, Delete(t.right, key, radio, Intended).tree, key, radio);
      } else if !Matches(t.station, radio) {
        FinishRepairs(t);
      } else if t.left.Leaf? && t.right.Leaf? {
      } else if t.left.Leaf? {
        DeleteSplice(t, key, radio, t.right);
      } else if t.right.Leaf? {
        DeleteSplice(t, key, radio, t.left);
      } else {
        var s := MinNode(t.right);
        DeleteKeepsAVL(t.right, s.key, SuccessorRadio(radio, s.station));
        DeleteSuccessor(
          t, key, radio, Delete(t.right, s.key, SuccessorRadio(radio, s.station), Intended).tree);
      }
    }
  }

  /**
   * As maps: the entry goes if no radio is asked for or its radio is the one asked for.  Otherwise,
   * or if the address is not there, the result is the tree itself.
   */
  lemma DeleteRemovesFromMap(t: Tree, key: Mac, radio: Option<int>)
    requires AVL(t)
    ensures Delete(t, key, radio, Intended).Ok?
    ensures key in AsMap(t) && (radio == None || AsMap(t)[key].radioID == radio.value) ==>
              AsMap(Delete(t, key, radio, Intended).tree) == AsMap(t) - {key}
    ensures key !in AsMap(t) || (radio.Some? && AsMap(t)[key].radioID != radio.value) ==>
              Delete(t, key, radio, Intended).tree == t
  {
    DeleteKeepsAVL(t, key, radio);
    FindIsEntry(t, key);
    MapHasItems(t);
    if Found(t, key, radio) {
      MapIs(Delete(t, key, radio, Intended).tree, AsMap(t) - {key});
    }
  }

  // ---------------------------------------------------------------- deletion as written

  /** Deleting this entry makes the tree lower, if no node on the way needs a rotation. */
  predicate Shrinks(t: Tree, key: Mac, radio: Option<int>) {
    if t.Leaf? then false
    else if Value(key) < Value(t.key) then Shrinks(t.left, key, radio) && H(t.left) > H(t.right)
    else if Value(key) > Value(t.key) then Shrinks(t.right, key, radio) && H(t.right) > H(t.left)
    else if !Matches(t.station, radio) then false
    else if t.left.Leaf? || t.right.Leaf? then true
    else
      var s := MinNode(t.right);
      Shrinks(t.right, s.key, SuccessorRadio(radio, s.station)) && H(t.right) > H(t.left)
  }

  /**
   * Some node on the way to the deleted entry loses height on the side opposite to the one it
   * leans to.  A caller can tell before the call, from the stored heights alone.
   */
  predicate NeedsRotation(t: Tree, key: Mac, radio: Option<int>) {
    if t.Leaf? then false
    else if Value(key) < Value(t.key) then
      NeedsRotation(t.left, key, radio) || (Shrinks(t.left, key, radio) && H(t.right) > H(t.left))
    else if Value(key) > Value(t.key) then
      NeedsRotation(t.right, key, radio) || (Shrinks(t.right, key, radio) && H(t.left) > H(t.right))
    else if !Matches(t.station, radio) || t.left.Leaf? || t.right.Leaf? then false
    else
      var s := MinNode(t.right);
      var radio' := SuccessorRadio(radio, s.station);
      NeedsRotation(t.right, s.key, radio') || (Shrinks(t.right, s.key, radio') && H(t.left) > H(t.right))
  }

  /** A deletion that needs no rotation does the same with either pair of rotations. */
  lemma {:induction false} WithoutRotationAsIntended(t: Tree, key: Mac, radio: Option<int>)
    requires AVL(t) && !NeedsRotation(t, key, radio)
    ensures Delete(t, key, radio, Intended).Ok?
    ensures Delete(t, key, radio, AsWritten) == Delete(t, key, radio, Intended)
    ensures H(Delete(t, key, radio, Intended).tree) == H(t) - if Shrinks(t, key, radio) then 1 else 0
    decreases t
  {
    DeleteKeepsAVL(t, key, radio);
    if t.Node? {
      if Value(key) < Value(t.key) {
        WithoutRotationAsIntended(t.left, key, radio);
        FinishIsRefresh(t.(left := Delete(t.left, key, radio, Intended).tree));
      } else if Value(key) > Value(t.key) {
        WithoutRotationAsIntended(t.right, key, radio);
        FinishIsRefresh(t.(right := Delete(t.right, key, radio, Intended).tree));
      } else if !Matches(t.station, radio) {
        FinishIsRefresh(t);
      } else if t.left.Leaf? || t.right.Leaf? {
        ValueIsInjective(key, t.key);
        if t.right.Node? { DeleteSplice(t, key, radio, t.right); }
        if t.left.Node? { DeleteSplice(t, key, radio, t.left); }
      } else {
        var s := MinNode(t.right);
        var radio' := SuccessorRadio(radio, s.station);
        WithoutRotationAsIntended(t.right, s.key, radio');
        var child := Delete(t.right, s.key, radio', Intended).tree;
        FinishIsRefresh(t.(key := s.key, station := s.station, right := child));
      }
    }
  }

  /** No NULL pointer was followed and the tree is balanced. */
  predicate Usable(r: Result) {
    r.Ok? && Balanced(r.tree)
  }

  /** A NULL pointer was followed, or the tree has right heights but is not balanced. */
  predicate Spoiled(r: Result) {
    r.Fault? || (Exact(r.tree) && !Balanced(r.tree))
  }

  /** A rotation the wrong way round never ends in a balanced tree. */
  lemma WrongRotationSpoils(u: Tree)
    requires u.Node? && Exact(u.left) && Exact(u.right) && (Balance(u) > 1 || Balance(u) < -1)
    ensures Spoiled(Finish(u, AsWritten))
  {
    var t := Refresh(u);
    HeightIsDepth(t.left);
    HeightIsDepth(t.right);
    if Balance(t) > 1 && Balance(t.left) >= 0 {
      RotatedRight(t);
    } else if Balance(t) > 1 {
      RotatedLeft(t.left);
      if RotateWithLeft(t.left).Ok? { RotatedRight(t.(left := RotateWithLeft(t.left).tree)); }
    } else if Balance(t.right) <= 0 {
      RotatedLeft(t);
    } else {
      RotatedRight(t.right);
      if RotateWithRight(t.right).Ok? { RotatedLeft(t.(right := RotateWithRight(t.right).tree)); }
    }
  }

  /** A rotation with the right child: the node goes down on the left and keeps its left subtree. */
  lemma RotatedRight(t: Tree)
    requires t.Node? && Exact(t.left) && Exact(t.right)
    ensures match RotateWithRight(t)
            case Fault => true
            case Ok(r) => r.Node? && Exact(r) && r.left.Node? && r.left.left == t.left
                          && H(r.left.right) < H(t.right) && H(r) > H(r.left) > H(t.left)
  {
    if t.right.Node? { HeightIsDepth(t.right.left); }
  }

  lemma RotatedLeft(t: Tree)
    requires t.Node? && Exact(t.left) && Exact(t.right)
    ensures match RotateWithLeft(t)
            case Fault => true
            case Ok(r) => r.Node? && Exact(r) && r.right.Node? && r.right.right == t.right
                          && H(r.right.left) < H(t.left) && H(r) > H(r.right) > H(t.right)
  {
    if t.left.Node? { HeightIsDepth(t.left.right); }
  }

  /** An unbalanced subtree stays, whatever happens above it. */
  lemma SpoiledStaysSpoiled(u: Tree)
    requires u.Node? && Exact(u.left) && Exact(u.right)
    requires !Balanced(u.left) || !Balanced(u.right)
    ensures Spoiled(Finish(u, AsWritten))
  {
    if Balance(u) > 1 || Balance(u) < -1 {
      WrongRotationSpoils(u);
    }
  }

  /** A deletion that needs a rotation follows a NULL pointer or leaves an unbalanced tree. */
  lemma {:induction false} RotationSpoils(t: Tree, key: Mac, radio: Option<int>)
    requires AVL(t) && NeedsRotation(t, key, radio)
    ensures Spoiled(Delete(t, key, radio, AsWritten))
    decreases t
  {
    if Value(key) < Value(t.key) {
      if NeedsRotation(t.left, key, radio) {
        RotationSpoils(t.left, key, radio);
        var child := Delete(t.left, key, radio, AsWritten);
        if child.Ok? { SpoiledStaysSpoiled(t.(left := child.tree)); }
      } else {
        WithoutRotationAsIntended(t.left, key, radio);
        DeleteKeepsAVL(t.left, key, radio);
        WrongRotationSpoils(t.(left := Delete(t.left, key, radio, AsWritten).tree));
      }
    } else if Value(key) > Value(t.key) {
      if NeedsRotation(t.right, key, radio) {
        RotationSpoils(t.right, key, radio);
        var child := Delete(t.right, key, radio, AsWritten);
        if child.Ok? { SpoiledStaysSpoiled(t.(right := child.tree)); }
      } else {
        WithoutRotationAsIntended(t.right, key, radio);
        DeleteKeepsAVL(t.right, key, radio);
        WrongRotationSpoils(t.(right := Delete(t.right, key, radio, AsWritten).tree));
      }
    } else {
      var s := MinNode(t.right);
      var radio' := SuccessorRadio(radio, s.station);
      var child := Delete(t.right, s.key, radio', AsWritten);
      if NeedsRotation(t.right, s.key, radio') {
        RotationSpoils(t.right, s.key, radio');
        if child.Ok? { SpoiledStaysSpoiled(t.(key := s.key, station := s.station, right := child.tree)); }
      } else {
        WithoutRotationAsIntended(t.right, s.key, radio');
        DeleteKeepsAVL(t.right, s.key, radio');
        WrongRotationSpoils(t.(key := s.key, station := s.station, right := child.tree));
      }
    }
  }

  /**
   * Exactly when the code keeps its promise: deletion as written leaves a balanced tree if and
   * only if no node on its way needs a rotation; then it removes exactly the matching entry.
   */
  lemma DeleteAsWrittenIff(t: Tree, key: Mac, radio: Option<int>)
    requires AVL(t)
    ensures Usable(Delete(t, key, radio, AsWritten)) <==> !NeedsRotation(t, key, radio)
    ensures Usable(Delete(t, key, radio, AsWritten)) ==>
              Removed(t, key, radio, Delete(t, key, radio, AsWritten).tree)
  {
    if NeedsRotation(t, key, radio) {
      RotationSpoils(t, key, radio);
    } else {
      WithoutRotationAsIntended(t, key, radio);
      DeleteKeepsAVL(t, key, radio);
    }
  }

  lemma {:induction false} NotFoundNeedsNoRotation(t: Tree, key: Mac, radio: Option<int>)
    requires !Found(t, key, radio)
    ensures !Shrinks(t, key, radio) && !NeedsRotation(t, key, radio)
  {
    if t.Node? {
      if Value(key) < Value(t.key) {
        NotFoundNeedsNoRotation(t.left, key, radio);
      } else if Value(key) > Value(t.key) {
        NotFoundNeedsNoRotation(t.right, key, radio);
      }
    }
  }

  /**
   * As maps, for the code: if the address is not there or stands for another radio, the tree stays
   * as it is; if it goes and no node on the way needs a rotation, nothing else does.
   */
  lemma DeleteAsWrittenFromMap(t: Tree, key: Mac, radio: Option<int>)
    requires AVL(t)
    ensures key !in AsMap(t) || (radio.Some? && AsMap(t)[key].radioID != radio.value) ==>
              Delete(t, key, radio, AsWritten) == Ok(t)
    ensures !NeedsRotation(t, key, radio) && key in AsMap(t)
            && (radio == None || AsMap(t)[key].radioID == radio.value) ==>
              Delete(t, key, radio, AsWritten).Ok?
              && AsMap(Delete(t, key, radio, AsWritten).tree) == AsMap(t) - {key}
  {
    DeleteRemovesFromMap(t, key, radio);
    FindIsEntry(t, key);
    MapHasItems(t);
    if !Found(t, key, radio) { NotFoundNeedsNoRotation(t, key, radio); }
    if !NeedsRotation(t, key, radio) { WithoutRotationAsIntended(t, key, radio); }
  }

  /** Four stations are enough: deleting the first of 1, 2, 3, 4 makes the code follow a NULL pointer. */
  lemma FourStationsFault(s: Station)
    ensures var a: Mac, b: Mac := [0, 0, 0, 0, 0, 1], [0, 0, 0, 0, 0, 2];
            var c: Mac, d: Mac := [0, 0, 0, 0, 0, 3], [0, 0, 0, 0, 0, 4];
            var t := Node(Node(Leaf, a, s, 0, Leaf), b, s, 2, Node(Leaf, c, s, 1, Node(Leaf, d, s, 0, Leaf)));
            AVL(t) && Delete(t, a, None, AsWritten) == Fault
  {
    var a: Mac, b: Mac := [0, 0, 0, 0, 0, 1], [0, 0, 0, 0, 0, 2];
    var c: Mac, d: Mac := [0, 0, 0, 0, 0, 3], [0, 0, 0, 0, 0, 4];
    SmallValue(a);
    SmallValue(b);
    SmallValue(c);
    SmallValue(d);
  }

  lemma SmallValue(m: Mac)
    requires m[..5] == [0, 0, 0, 0, 0]
    ensures Value(m) == m[5]
  {
    var z := m[..5];
    assert z[0] == m[0] && z[1] == m[1] && z[2] == m[2] && z[3] == m[3] && z[4] == m[4];
    assert Prefix(m, 1) == 0;
    assert Prefix(m, 2) == 0;
    assert Prefix(m, 3) == 0;
    assert Prefix(m, 4) == 0;
    assert Prefix(m, 5) == 0;
  }

  // ---------------------------------------------------------------- size and lookups

  function Fib(n: nat): nat {
    if n < 2 then n else Fib(n - 1) + Fib(n - 2)
  }

  function Count(t: Tree): nat {
    if t.Leaf? then 0 else Count(t.left) + 1 + Count(t.right)
  }

  lemma KeysBelow(t: Tree, key: Mac)
    requires Ordered(t) && Below(Items(t), key)
    ensures forall k <- AsMap(t).Keys :: Value(k) < Value(key)
  {
    MapHasItems(t);
    forall k | k in AsMap(t).Keys ensures Value(k) < Value(key) {
      assert (k, AsMap(t)[k]) in Items(t);
    }
  }

  lemma KeysAbove(t: Tree, key: Mac)
    requires Ordered(t) && Above(Items(t), key)
    ensures forall k <- AsMap(t).Keys :: Value(key) < Value(k)
  {
    MapHasItems(t);
    forall k | k in AsMap(t).Keys ensures Value(key) < Value(k) {
      assert (k, AsMap(t)[k]) in Items(t);
    }
  }

  lemma KeysOfNode(l: set<Mac>, r: set<Mac>, key: Mac)
    requires forall k <- l :: Value(k) < Value(key)
    requires forall k <- r :: Value(key) < Value(k)
    ensures |l + r + {key}| == |l| + |r| + 1
  {
    assert l * r == {};
    assert key !in l + r;
  }

  /** A node for every station */
  lemma {:induction false} CountIsMapSize(t: Tree)
    requires Ordered(t)
    ensures |AsMap(t).Keys| == Count(t)
  {
    if t.Node? {
      CountIsMapSize(t.left);
      CountIsMapSize(t.right);
      KeysBelow(t.left, t.key);
      KeysAbove(t.right, t.key);
      KeysOfNode(AsMap(t.left).Keys, AsMap(t.right).Keys, t.key);
      assert AsMap(t).Keys == AsMap(t.left).Keys + AsMap(t.right).Keys + {t.key};
    }
  }

  lemma FibGrows(n: nat)
    ensures Fib(n) <= Fib(n + 1)
  {}

  /** An AVL tree of height h has at least Fib(h + 3) - 1 stations. */
  lemma {:induction false} FibonacciBound(t: Tree)
    requires Exact(t) && Balanced(t)
    ensures H(t) >= -1 && Count(t) >= Fib(H(t) + 3) - 1
  {
    HeightIsDepth(t);
    if t.Node? {
      FibonacciBound(t.left);
      FibonacciBound(t.right);
      var h := H(t);
      assert Fib(h + 3) == Fib(h + 2) + Fib(h + 1);
      if H(t.left) == h - 1 {
        FibMonotone(h + 1, H(t.right) + 3);
      } else {
        FibMonotone(h + 1, H(t.left) + 3);
      }
    } else {
      assert Fib(2) == 1;
    }
  }

  /** Fibonacci numbers double every second step. */
  lemma FibDoubles(n: nat)
    ensures Fib(n + 4) >= 2 * Fib(n + 2)
  {
    FibGrows(n + 2);
  }

  lemma {:induction false} FibIsExponential(n: nat)
    ensures Fib(n + 2) >= Pow2(n / 2)
    decreases n
  {
    if n >= 2 {
      FibIsExponential(n - 2);
      FibDoubles(n - 2);
    } else if n == 1 {
      assert Fib(3) == 2;
    }
  }

  lemma {:induction false} VisitsWithinHeight(t: Tree, key: Mac)
    requires Exact(t)
    ensures Visits(t, key) <= H(t) + 1
  {
    if t.Node? {
      VisitsWithinHeight(t.left, key);
      VisitsWithinHeight(t.right, key);
    }
  }

  /**
   * A lookup returns the map's entry for the address, and looks at no more nodes than twice
   * the binary logarithm of the number of stations allows.
   */
  lemma LookupIsLogarithmic(t: Tree, key: Mac)
    requires AVL(t)
    ensures key in AsMap(t) <==> Find(t, key).Node?
    ensures key in AsMap(t) ==> Find(t, key).key == key && Find(t, key).station == AsMap(t)[key]
    ensures Visits(t, key) <= H(t) + 1
    ensures Visits(t, key) > 0 ==> Pow2(Visits(t, key) / 2) <= |AsMap(t).Keys| + 1
  {
    CountIsMapSize(t);
    FindIsEntry(t, key);
    MapHasItems(t);
    VisitsWithinHeight(t, key);
    FibonacciBound(t);
    var v := Visits(t, key);
    FibIsExponential(v);
    FibMonotone(v + 2, H(t) + 3);
  }

  lemma {:induction false} FibMonotone(i: nat, j: nat)
    requires i <= j
    ensures Fib(i) <= Fib(j)
    decreases j
  {
    if i < j {
      FibMonotone(i, j - 1);
      FibGrows(j - 1);
    }
  }
}
