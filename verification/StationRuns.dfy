/**
 * Whole runs of the station registry: insertions and deletions as written, in any order, from
 * the empty tree on.  A deletion can leave a tree that is not balanced, so what insertion does
 * to any ordered tree with exact heights is part of this.
 */
module StationRuns {
  import opened Wire
  import opened Wrappers
  import opened StationTree
  import opened StationLaws

  // ---------------------------------------------------------------- rotations on any tree

  /** An ordered tree with exact heights below its root */
  ghost predicate Loose(t: Tree) {
    t.Node? && Ordered(t) && Exact(t.left) && Exact(t.right)
  }

  /** An ordered tree with exact heights and these entries */
  ghost predicate Keeps(r: Tree, entries: set<(Mac, Station)>) {
    Ordered(r) && Exact(r) && Items(r) == entries
  }

  lemma LeftRotationKeeps(t: Tree)
    requires Loose(t) && RotateWithLeft(t).Ok?
    ensures Keeps(RotateWithLeft(t).tree, Items(t)) && RotateWithLeft(t).tree.Node?
  {
    RotateWithLeftKeeps(t);
  }

  lemma RightRotationKeeps(t: Tree)
    requires Loose(t) && RotateWithRight(t).Ok?
    ensures Keeps(RotateWithRight(t).tree, Items(t)) && RotateWithRight(t).tree.Node?
  {
    RotateWithRightKeeps(t);
  }

  /** A child exchanged for one with the same entries */
  lemma LeftExchanged(t: Tree, child: Tree)
    requires Loose(t) && Keeps(child, Items(t.left))
    ensures Loose(t.(left := child)) && Items(t.(left := child)) == Items(t)
  {
  }

  lemma RightExchanged(t: Tree, child: Tree)
    requires Loose(t) && Keeps(child, Items(t.right))
    ensures Loose(t.(right := child)) && Items(t.(right := child)) == Items(t)
  {
  }

  lemma ThroughLeftChild(t: Tree, child: Result)
    requires Loose(t) && t.left.Node? && (child == RotateWithLeft(t.left) || child == RotateWithRight(t.left))
    ensures AfterLeft(t, child).Ok? ==> Loose(AfterLeft(t, child).tree) && Items(AfterLeft(t, child).tree) == Items(t)
  {
    if child.Ok? {
      if child == RotateWithLeft(t.left) { LeftRotationKeeps(t.left); } else { RightRotationKeeps(t.left); }
      LeftExchanged(t, child.tree);
    }
  }

  lemma ThroughRightChild(t: Tree, child: Result)
    requires Loose(t) && t.right.Node? && (child == RotateWithLeft(t.right) || child == RotateWithRight(t.right))
    ensures AfterRight(t, child).Ok? ==> Loose(AfterRight(t, child).tree)
                                         && Items(AfterRight(t, child).tree) == Items(t)
  {
    if child.Ok? {
      if child == RotateWithLeft(t.right) { LeftRotationKeeps(t.right); } else { RightRotationKeeps(t.right); }
      RightExchanged(t, child.tree);
    }
  }

  lemma RefreshKeeps(t: Tree)
    requires Loose(t)
    ensures Keeps(Refresh(t), Items(t)) && Loose(Refresh(t))
  {
  }

  // ---------------------------------------------------------------- insertion into any tree

  lemma AfterInsertLeftKeeps(t: Tree, key: Mac)
    requires Loose(t) && t.left.Node? && AfterInsertLeft(t, key).Ok?
    ensures Keeps(AfterInsertLeft(t, key).tree, Items(t))
  {
    if H(t.left) - H(t.right) != 2 {
      RefreshKeeps(t);
    } else if Value(key) < Value(t.left.key) {
      LeftRotationKeeps(t);
    } else {
      ThroughLeftChild(t, RotateWithRight(t.left));
      LeftRotationKeeps(AfterLeft(t, RotateWithRight(t.left)).tree);
    }
  }

  lemma AfterInsertRightKeeps(t: Tree, key: Mac)
    requires Loose(t) && t.right.Node? && AfterInsertRight(t, key).Ok?
    ensures Keeps(AfterInsertRight(t, key).tree, Items(t))
  {
    if H(t.right) - H(t.left) != 2 {
      RefreshKeeps(t);
    } else if Value(key) > Value(t.right.key) {
      RightRotationKeeps(t);
    } else {
      ThroughRightChild(t, RotateWithLeft(t.right));
      RightRotationKeeps(AfterRight(t, RotateWithLeft(t.right)).tree);
    }
  }

  /** Insertion that does not fault keeps order and exact heights of any tree, balanced or not. */
  lemma {:induction false} InsertKeepsOrder(t: Tree, key: Mac, station: Station)
    requires Ordered(t) && Exact(t) && Insert(t, key, station).Ok?
    ensures Keeps(Insert(t, key, station).tree, WithEntry(t, key, station))
  {
    if t.Node? {
      if Value(key) < Value(t.key) {
        InsertKeepsOrder(t.left, key, station);
        var child := Insert(t.left, key, station).tree;
        EntryOnLeft(t, child, key, station);
        AfterInsertLeftKeeps(t.(left := child), key);
      } else if Value(key) > Value(t.key) {
        InsertKeepsOrder(t.right, key, station);
        var child := Insert(t.right, key, station).tree;
        EntryOnRight(t, child, key, station);
        AfterInsertRightKeeps(t.(right := child), key);
      }
    }
  }

  // ---------------------------------------------------------------- deletion from any tree

  lemma RebalanceKeeps(t: Tree, rot: Rotations)
    requires Loose(t) && Exact(t) && Rebalance(t, rot).Ok?
    ensures Keeps(Rebalance(t, rot).tree, Items(t))
  {
    if Balance(t) > 1 && Balance(t.left) >= 0 {
      if rot.AsWritten? { RightRotationKeeps(t); } else { LeftRotationKeeps(t); }
    } else if Balance(t) > 1 {
      var child := if rot.AsWritten? then RotateWithLeft(t.left) else RotateWithRight(t.left);
      ThroughLeftChild(t, child);
      var u := AfterLeft(t, child).tree;
      if rot.AsWritten? { RightRotationKeeps(u); } else { LeftRotationKeeps(u); }
    } else if Balance(t) < -1 && Balance(t.right) <= 0 {
      if rot.AsWritten? { LeftRotationKeeps(t); } else { RightRotationKeeps(t); }
    } else if Balance(t) < -1 {
      var child := if rot.AsWritten? then RotateWithRight(t.right) else RotateWithLeft(t.right);
      ThroughRightChild(t, child);
      var u := AfterRight(t, child).tree;
      if rot.AsWritten? { LeftRotationKeeps(u); } else { RightRotationKeeps(u); }
    }
  }

  lemma FinishKeeps(t: Tree, rot: Rotations)
    requires Loose(t) && Finish(t, rot).Ok?
    ensures Keeps(Finish(t, rot).tree, Items(t))
  {
    RefreshKeeps(t);
    RebalanceKeeps(Refresh(t), rot);
  }

  /** Deletion that does not fault, with either pair of rotations, removes exactly the matching entry of any tree. */
  lemma {:induction false} DeleteKeepsOrder(t: Tree, key: Mac, radio: Option<int>, rot: Rotations)
    requires Ordered(t) && Exact(t) && Delete(t, key, radio, rot).Ok?
    ensures Keeps(Delete(t, key, radio, rot).tree, WithoutEntry(t, key, radio))
    decreases t
  {
    if t.Node? {
      ValueIsInjective(key, t.key);
      if Value(key) < Value(t.key) {
        DeleteKeepsOrder(t.left, key, radio, rot);
        var child := Delete(t.left, key, radio, rot).tree;
        EntryOffLeft(t, child, key, radio);
        FinishKeeps(t.(left := child), rot);
      } else if Value(key) > Value(t.key) {
        DeleteKeepsOrder(t.right, key, radio, rot);
        var child := Delete(t.right, key, radio, rot).tree;
        EntryOffRight(t, child, key, radio);
        FinishKeeps(t.(right := child), rot);
      } else if !Matches(t.station, radio) {
        FinishKeeps(t, rot);
      } else if t.left.Leaf? && t.right.Leaf? {
      } else if t.left.Leaf? {
        SpliceEntries(t, t.right);
        FinishKeeps(t.right, rot);
      } else if t.right.Leaf? {
        SpliceEntries(t, t.left);
        FinishKeeps(t.left, rot);
      } else {
        SuccessorKeepsOrder(t, key, radio, rot);
      }
    }
  }

  lemma {:induction false} SuccessorKeepsOrder(t: Tree, key: Mac, radio: Option<int>, rot: Rotations)
    requires Ordered(t) && Exact(t) && t.Node? && t.left.Node? && t.right.Node?
    requires key == t.key && Matches(t.station, radio) && Delete(t, key, radio, rot).Ok?
    ensures Keeps(Delete(t, key, radio, rot).tree, WithoutEntry(t, key, radio))
    decreases t, 0
  {
    var s := MinNode(t.right);
    var child := Delete(t.right, s.key, SuccessorRadio(radio, s.station), rot).tree;
    MinIsLeast(t.right);
    DeleteKeepsOrder(t.right, s.key, SuccessorRadio(radio, s.station), rot);
    SuccessorEntries(t, child);
    FinishKeeps(t.(key := s.key, station := s.station, right := child), rot);
  }

  // ---------------------------------------------------------------- when insertion faults

  /**
   * The address is there already, its node has no child on the inner side, and the parent leans
   * by two towards it.  Only a tree that is not balanced has such a place.
   */
  predicate Trapped(t: Tree, key: Mac) {
    t.Node? &&
    if Value(key) < Value(t.key) then
      Trapped(t.left, key)
      || (t.left.Node? && t.left.key == key && t.left.right.Leaf? && H(t.left) - H(t.right) == 2)
    else if Value(key) > Value(t.key) then
      Trapped(t.right, key)
      || (t.right.Node? && t.right.key == key && t.right.left.Leaf? && H(t.right) - H(t.left) == 2)
    else false
  }

  /** After an insertion the address is somewhere in the tree. */
  lemma InsertedIsThere(t: Tree, key: Mac, station: Station)
    requires Ordered(t) && Exact(t) && Insert(t, key, station).Ok?
    ensures exists e :: e in Items(Insert(t, key, station).tree) && e.0 == key
  {
    InsertKeepsOrder(t, key, station);
    FindIsEntry(t, key);
    var r := Insert(t, key, station).tree;
    if Find(t, key).Node? {
      assert (key, Find(t, key).station) in Items(r);
    } else {
      assert (key, station) in Items(r);
    }
  }

  /** If the address comes to stand at the root of a tree with other nodes, it was there or both children exist. */
  lemma InsertedAtRoot(t: Tree, key: Mac, station: Station)
    requires Ordered(t) && Exact(t) && t.Node?
    requires Insert(t, key, station).Ok? && Insert(t, key, station).tree.key == key
    ensures var r := Insert(t, key, station).tree;
            (r == t && t.key == key) || (r.left.Node? && r.right.Node?)
  {
    ValueIsInjective(key, t.key);
  }

  /** The place of an address in an ordered tree */
  lemma EntryLiesRight(t: Tree, key: Mac)
    requires Ordered(t) && t.Node? && Value(key) > Value(t.key)
    requires exists e :: e in Items(t) && e.0 == key
    ensures t.right.Node?
  {
    var e :| e in Items(t) && e.0 == key;
    assert e !in Items(t.left);
  }

  lemma EntryLiesLeft(t: Tree, key: Mac)
    requires Ordered(t) && t.Node? && Value(key) < Value(t.key)
    requires exists e :: e in Items(t) && e.0 == key
    ensures t.left.Node?
  {
    var e :| e in Items(t) && e.0 == key;
    assert e !in Items(t.right);
  }

  /** Insertion into an ordered tree with exact heights follows a NULL pointer exactly if the address is trapped. */
  lemma {:induction false} InsertFaultsIff(t: Tree, key: Mac, station: Station)
    requires Ordered(t) && Exact(t)
    ensures Insert(t, key, station).Fault? <==> Trapped(t, key)
  {
    if t.Node? {
      if Value(key) < Value(t.key) {
        InsertFaultsIff(t.left, key, station);
        if Insert(t.left, key, station).Ok? { LeftFaultsIff(t, key, station); }
      } else if Value(key) > Value(t.key) {
        InsertFaultsIff(t.right, key, station);
        if Insert(t.right, key, station).Ok? { RightFaultsIff(t, key, station); }
      }
    }
  }

  lemma LeftFaultsIff(t: Tree, key: Mac, station: Station)
    requires Ordered(t) && Exact(t) && t.Node? && Value(key) < Value(t.key) && Insert(t.left, key, station).Ok?
    ensures AfterInsertLeft(t.(left := Insert(t.left, key, station).tree), key).Fault? <==>
            t.left.Node? && t.left.key == key && t.left.right.Leaf? && H(t.left) - H(t.right) == 2
  {
    var child := Insert(t.left, key, station).tree;
    InsertKeepsOrder(t.left, key, station);
    InsertedIsThere(t.left, key, station);
    ValueIsInjective(key, child.key);
    HeightIsDepth(t.right);
    if t.left.Node? {
      ValueIsInjective(key, t.left.key);
      if t.left.key == key { assert child == t.left; }
      if child.key == key { InsertedAtRoot(t.left, key, station); }
    }
    if Value(key) > Value(child.key) { EntryLiesRight(child, key); }
    if Value(key) < Value(child.key) { EntryLiesLeft(child, key); }
  }

  lemma RightFaultsIff(t: Tree, key: Mac, station: Station)
    requires Ordered(t) && Exact(t) && t.Node? && Value(key) > Value(t.key) && Insert(t.right, key, station).Ok?
    ensures AfterInsertRight(t.(right := Insert(t.right, key, station).tree), key).Fault? <==>
            t.right.Node? && t.right.key == key && t.right.left.Leaf? && H(t.right) - H(t.left) == 2
  {
    var child := Insert(t.right, key, station).tree;
    InsertKeepsOrder(t.right, key, station);
    InsertedIsThere(t.right, key, station);
    ValueIsInjective(key, child.key);
    HeightIsDepth(t.left);
    if t.right.Node? {
      ValueIsInjective(key, t.right.key);
      if t.right.key == key { assert child == t.right; }
      if child.key == key { InsertedAtRoot(t.right, key, station); }
    }
    if Value(key) > Value(child.key) { EntryLiesRight(child, key); }
    if Value(key) < Value(child.key) { EntryLiesLeft(child, key); }
  }

  // ---------------------------------------------------------------- when deletion faults

  /** What the heights say of a tree: it is empty, or how high the two sides of its root are. */
  datatype Outline = Empty | Sides(left: int, right: int)

  function OutlineOf(t: Tree): Outline {
    if t.Leaf? then Empty else Sides(H(t.left), H(t.right))
  }

  function Height(o: Outline): int {
    if o.Empty? then -1 else Max(o.left, o.right) + 1
  }

  predicate LeansLeft(o: Outline) {
    o.Sides? && o.left > o.right
  }

  predicate LeansRight(o: Outline) {
    o.Sides? && o.left < o.right
  }

  /**
   * What becomes of a node with these two subtrees at the end of a deletion as written.  Two off,
   * it goes down on the higher side below the root of the lower one, which must be there.  A
   * higher child that leans inwards grows by one before that, and needs an outer child to do so.
   */
  function Settle(a: Outline, b: Outline): Option<Outline> {
    if Height(a) - Height(b) > 1 then
      if b.Empty? || (LeansRight(a) && a.left == -1) then None
      else Some(Sides(Max(Height(a) + (if LeansRight(a) then 1 else 0), b.left) + 1, b.right))
    else if Height(b) - Height(a) > 1 then
      if a.Empty? || (LeansLeft(b) && b.right == -1) then None
      else Some(Sides(a.left, Max(a.right, Height(b) + if LeansLeft(b) then 1 else 0) + 1))
    else Some(Sides(Height(a), Height(b)))
  }

  function SettleLeft(child: Option<Outline>, t: Tree): Option<Outline>
    requires t.Node?
  {
    if child.None? then None else Settle(child.value, OutlineOf(t.right))
  }

  function SettleRight(child: Option<Outline>, t: Tree): Option<Outline>
    requires t.Node?
  {
    if child.None? then None else Settle(OutlineOf(t.left), child.value)
  }

  function SettleNode(t: Tree): Option<Outline>
    requires t.Node?
  {
    Settle(OutlineOf(t.left), OutlineOf(t.right))
  }

  /** What a deletion will leave, from the heights along its way in the tree it finds */
  function Foreseen(t: Tree, key: Mac, radio: Option<int>): Option<Outline> {
    if t.Leaf? then Some(Empty)
    else if Value(key) < Value(t.key) then SettleLeft(Foreseen(t.left, key, radio), t)
    else if Value(key) > Value(t.key) then SettleRight(Foreseen(t.right, key, radio), t)
    else if !Matches(t.station, radio) then SettleNode(t)
    else if t.left.Leaf? && t.right.Leaf? then Some(Empty)
    else if t.left.Leaf? then SettleNode(t.right)
    else if t.right.Leaf? then SettleNode(t.left)
    else
      var s := MinNode(t.right);
      SettleRight(Foreseen(t.right, s.key, SuccessorRadio(radio, s.station)), t)
  }

  /** The result of a tree operation has this outline, or there is none because it followed a NULL pointer. */
  predicate HasOutline(r: Result, o: Option<Outline>) {
    match r
    case Fault => o.None?
    case Ok(t) => o == Some(OutlineOf(t))
  }

  lemma OutlineHeight(t: Tree)
    requires Exact(t)
    ensures Height(OutlineOf(t)) == H(t) && H(t) >= -1
    ensures H(t) == -1 <==> t.Leaf?
  {
    HeightIsDepth(t);
  }

  lemma LeftHeavyAsForeseen(t: Tree)
    requires t.Node? && Exact(t.left) && Exact(t.right) && H(t.left) - H(t.right) > 1
    ensures HasOutline(Finish(t, AsWritten), SettleNode(t))
  {
    var l, r := t.left, t.right;
    OutlineHeight(l);
    OutlineHeight(r);
    OutlineHeight(l.left);
    OutlineHeight(l.right);
    if l.left.Node? { OutlineHeight(l.left.left); OutlineHeight(l.left.right); }
  }

  lemma RightHeavyAsForeseen(t: Tree)
    requires t.Node? && Exact(t.left) && Exact(t.right) && H(t.right) - H(t.left) > 1
    ensures HasOutline(Finish(t, AsWritten), SettleNode(t))
  {
    var l, r := t.left, t.right;
    OutlineHeight(l);
    OutlineHeight(r);
    OutlineHeight(r.left);
    OutlineHeight(r.right);
    if r.right.Node? { OutlineHeight(r.right.left); OutlineHeight(r.right.right); }
  }

  /** The end of a deletion does what the heights of the subtrees and of their children say. */
  lemma FinishAsForeseen(t: Tree)
    requires t.Node? && Exact(t.left) && Exact(t.right)
    ensures HasOutline(Finish(t, AsWritten), SettleNode(t))
  {
    if H(t.left) - H(t.right) > 1 {
      LeftHeavyAsForeseen(t);
    } else if H(t.right) - H(t.left) > 1 {
      RightHeavyAsForeseen(t);
    } else {
      OutlineHeight(t.left);
      OutlineHeight(t.right);
    }
  }

  /**
   * Deletion as written, from any ordered tree with exact heights, follows a NULL pointer exactly
   * if the heights on its way foresee it; otherwise they foresee the height of the result.
   */
  lemma {:induction false} DeleteAsForeseen(t: Tree, key: Mac, radio: Option<int>)
    requires Ordered(t) && Exact(t)
    ensures HasOutline(Delete(t, key, radio, AsWritten), Foreseen(t, key, radio))
    decreases t
  {
    if t.Node? {
      if Value(key) < Value(t.key) {
        ForeseenOnLeft(t, key, radio);
      } else if Value(key) > Value(t.key) {
        ForeseenOnRight(t, key, radio, t);
      } else if !Matches(t.station, radio) {
        FinishAsForeseen(t);
      } else if t.left.Leaf? || t.right.Leaf? {
        if t.right.Node? { FinishAsForeseen(t.right); }
        if t.left.Node? { FinishAsForeseen(t.left); }
      } else {
        var s := MinNode(t.right);
        ForeseenOnRight(t, s.key, SuccessorRadio(radio, s.station), t.(key := s.key, station := s.station));
      }
    }
  }

  lemma {:induction false} ForeseenOnLeft(t: Tree, key: Mac, radio: Option<int>)
    requires Ordered(t) && Exact(t) && t.Node?
    ensures var child := Delete(t.left, key, radio, AsWritten);
            HasOutline(if child.Fault? then Fault else Finish(t.(left := child.tree), AsWritten),
                       SettleLeft(Foreseen(t.left, key, radio), t))
    decreases t, 0
  {
    DeleteAsForeseen(t.left, key, radio);
    var child := Delete(t.left, key, radio, AsWritten);
    if child.Ok? {
      DeleteKeepsOrder(t.left, key, radio, AsWritten);
      FinishAsForeseen(t.(left := child.tree));
    }
  }

  /** On the right the root may have taken over the data of its successor. */
  lemma {:induction false} ForeseenOnRight(t: Tree, key: Mac, radio: Option<int>, u: Tree)
    requires Ordered(t) && Exact(t) && t.Node? && u.Node? && u.left == t.left
    ensures var child := Delete(t.right, key, radio, AsWritten);
            HasOutline(if child.Fault? then Fault else Finish(u.(right := child.tree), AsWritten),
                       SettleRight(Foreseen(t.right, key, radio), t))
    decreases t, 0
  {
    DeleteAsForeseen(t.right, key, radio);
    var child := Delete(t.right, key, radio, AsWritten);
    if child.Ok? {
      DeleteKeepsOrder(t.right, key, radio, AsWritten);
      FinishAsForeseen(u.(right := child.tree));
    }
  }

  /** Deletion as written follows a NULL pointer exactly if the heights on its way foresee it. */
  lemma DeleteFaultsIff(t: Tree, key: Mac, radio: Option<int>)
    requires Ordered(t) && Exact(t)
    ensures Delete(t, key, radio, AsWritten).Fault? <==> Foreseen(t, key, radio).None?
    ensures Delete(t, key, radio, AsWritten).Ok? ==>
              H(Delete(t, key, radio, AsWritten).tree) == Height(Foreseen(t, key, radio).value)
  {
    DeleteAsForeseen(t, key, radio);
    var r := Delete(t, key, radio, AsWritten);
    if r.Ok? {
      DeleteKeepsOrder(t, key, radio, AsWritten);
      OutlineHeight(r.tree);
    }
  }

  // ---------------------------------------------------------------- whole runs

  datatype Call = Add(key: Mac, station: Station) | Remove(key: Mac, radio: Option<int>)

  /** One call on the registry as the code does it */
  function Perform(t: Tree, call: Call): Result {
    match call
    case Add(key, station) => Insert(t, key, station)
    case Remove(key, radio) => Delete(t, key, radio, AsWritten)
  }

  /** The registry after the calls; a run ends at the first NULL pointer. */
  function Run(t: Tree, calls: seq<Call>): Result
    decreases |calls|
  {
    if calls == [] then Ok(t)
    else
      var r := Perform(t, calls[0]);
      if r.Fault? then Fault else Run(r.tree, calls[1..])
  }

  /** What the calls do to a map */
  function Applied(m: map<Mac, Station>, call: Call): map<Mac, Station> {
    match call
    case Add(key, station) => if key in m then m else m[key := station]
    case Remove(key, radio) =>
      if key in m && (radio == None || m[key].radioID == radio.value) then m - {key} else m
  }

  function AppliedAll(m: map<Mac, Station>, calls: seq<Call>): map<Mac, Station>
    decreases |calls|
  {
    if calls == [] then m else AppliedAll(Applied(m, calls[0]), calls[1..])
  }

  lemma AddFollows(t: Tree, key: Mac, station: Station)
    requires Ordered(t) && Exact(t) && Insert(t, key, station).Ok?
    ensures AsMap(Insert(t, key, station).tree) == Applied(AsMap(t), Add(key, station))
  {
    InsertKeepsOrder(t, key, station);
    FindIsEntry(t, key);
    MapHasItems(t);
    MapIs(Insert(t, key, station).tree, Applied(AsMap(t), Add(key, station)));
  }

  lemma RemoveFollows(t: Tree, key: Mac, radio: Option<int>)
    requires Ordered(t) && Exact(t) && Delete(t, key, radio, AsWritten).Ok?
    ensures AsMap(Delete(t, key, radio, AsWritten).tree) == Applied(AsMap(t), Remove(key, radio))
  {
    DeleteKeepsOrder(t, key, radio, AsWritten);
    FindIsEntry(t, key);
    MapHasItems(t);
    MapIs(Delete(t, key, radio, AsWritten).tree, Applied(AsMap(t), Remove(key, radio)));
  }

  lemma CallFollows(t: Tree, call: Call)
    requires Ordered(t) && Exact(t) && Perform(t, call).Ok?
    ensures var r := Perform(t, call).tree;
            Ordered(r) && Exact(r) && AsMap(r) == Applied(AsMap(t), call)
  {
    match call
    case Add(key, station) =>
      InsertKeepsOrder(t, key, station);
      AddFollows(t, key, station);
    case Remove(key, radio) =>
      DeleteKeepsOrder(t, key, radio, AsWritten);
      RemoveFollows(t, key, radio);
  }

  /**
   * As long as no NULL pointer is followed, the registry is ordered, its heights are exact, and
   * as a map it follows the calls, whether or not it is still balanced.
   */
  lemma {:induction false} RunFollows(t: Tree, calls: seq<Call>)
    requires Ordered(t) && Exact(t) && Run(t, calls).Ok?
    ensures var r := Run(t, calls).tree;
            Ordered(r) && Exact(r) && AsMap(r) == AppliedAll(AsMap(t), calls)
    decreases |calls|
  {
    if calls != [] {
      CallFollows(t, calls[0]);
      RunFollows(Perform(t, calls[0]).tree, calls[1..]);
    }
  }

  /** What a caller can tell of the next call: an addition is trapped, or a deletion is foreseen to fail. */
  predicate Fails(t: Tree, call: Call) {
    match call
    case Add(key, _) => Trapped(t, key)
    case Remove(key, radio) => Foreseen(t, key, radio).None?
  }

  lemma CallFaultsIff(t: Tree, call: Call)
    requires Ordered(t) && Exact(t)
    ensures Perform(t, call).Fault? <==> Fails(t, call)
  {
    match call
    case Add(key, station) => InsertFaultsIff(t, key, station);
    case Remove(key, radio) => DeleteFaultsIff(t, key, radio);
  }

  /** No call of the run fails in the tree it finds. */
  predicate NoneFails(t: Tree, calls: seq<Call>)
    decreases |calls|
  {
    calls == [] ||
    (!Fails(t, calls[0]) && (Perform(t, calls[0]).Ok? ==> NoneFails(Perform(t, calls[0]).tree, calls[1..])))
  }

  /** A run follows a NULL pointer exactly if one of its calls is trapped or foreseen to fail in the tree it finds. */
  lemma {:induction false} RunFaultsIff(t: Tree, calls: seq<Call>)
    requires Ordered(t) && Exact(t)
    ensures Run(t, calls).Ok? <==> NoneFails(t, calls)
    decreases |calls|
  {
    if calls != [] {
      CallFaultsIff(t, calls[0]);
      if Perform(t, calls[0]).Ok? {
        CallFollows(t, calls[0]);
        RunFaultsIff(Perform(t, calls[0]).tree, calls[1..]);
      }
    }
  }

  /** The tree is AVL after every call of the run, and none of them faults. */
  ghost predicate StaysAVL(t: Tree, calls: seq<Call>)
    decreases |calls|
  {
    AVL(t) && (calls != [] ==> Perform(t, calls[0]).Ok? && StaysAVL(Perform(t, calls[0]).tree, calls[1..]))
  }

  /** No deletion of the run needs a rotation in the tree it finds. */
  predicate NoRotationDue(t: Tree, calls: seq<Call>)
    decreases |calls|
  {
    calls == [] ||
    (&& (calls[0].Remove? ==> !NeedsRotation(t, calls[0].key, calls[0].radio))
     && (Perform(t, calls[0]).Ok? ==> NoRotationDue(Perform(t, calls[0]).tree, calls[1..])))
  }

  /** The registry stays an AVL tree throughout a run exactly if no deletion in it needs a rotation. */
  lemma {:induction false} StaysAVLIff(t: Tree, calls: seq<Call>)
    requires AVL(t)
    ensures StaysAVL(t, calls) <==> NoRotationDue(t, calls)
    decreases |calls|
  {
    if calls != [] {
      var call := calls[0];
      CallKeepsAVLIff(t, call);
      if Perform(t, call).Ok? && AVL(Perform(t, call).tree) {
        StaysAVLIff(Perform(t, call).tree, calls[1..]);
      }
    }
  }

  lemma CallKeepsAVLIff(t: Tree, call: Call)
    requires AVL(t)
    ensures Perform(t, call).Ok? && AVL(Perform(t, call).tree) <==>
            (call.Remove? ==> !NeedsRotation(t, call.key, call.radio))
  {
    match call
    case Add(key, station) => InsertKeepsAVL(t, key, station);
    case Remove(key, radio) => DeleteAsWrittenIff(t, key, radio);
  }

  /** From the empty registry: when a run faults, what the registry is if it does not, and when it stays balanced */
  lemma RegistryRuns(calls: seq<Call>)
    ensures Run(Leaf, calls).Ok? <==> NoneFails(Leaf, calls)
    ensures NoneFails(Leaf, calls) ==>
              Run(Leaf, calls).Ok? &&
              var r := Run(Leaf, calls).tree;
              Ordered(r) && Exact(r) && AsMap(r) == AppliedAll(map[], calls)
    ensures StaysAVL(Leaf, calls) <==> NoRotationDue(Leaf, calls)
  {
    RunFaultsIff(Leaf, calls);
    if Run(Leaf, calls).Ok? { RunFollows(Leaf, calls); }
    StaysAVLIff(Leaf, calls);
  }

  // ---------------------------------------------------------------- a run that ends at a NULL pointer

  type Small = i: nat | i < 256

  function K(i: Small): Mac {
    [0, 0, 0, 0, 0, i]
  }

  lemma KeysInOrder()
    ensures forall i: Small :: Value(K(i)) == i
  {
    forall i: Small ensures Value(K(i)) == i { SmallValue(K(i)); }
  }

  function N(left: Tree, i: Small, s: Station, right: Tree): Tree {
    Mk(left, K(i), s, right)
  }

  function InFront(c0: Call, c1: Call, c2: Call, c3: Call, rest: seq<Call>): seq<Call> {
    [c0] + ([c1] + ([c2] + ([c3] + rest)))
  }

  /** Seven stations are added, one is removed, and one that is there is added again. */
  function Schedule(s: Station): seq<Call> {
    InFront(Add(K(0), s), Add(K(1), s), Add(K(2), s), Add(K(4), s),
            InFront(Add(K(5), s), Add(K(6), s), Add(K(3), s), Remove(K(4), None), [Add(K(2), s)]))
  }

  /** The registry after the first n of these calls, before the last one */
  function Stage(n: nat, s: Station): Tree
    requires n <= 8
  {
    if n == 0 then Leaf
    else if n == 1 then N(Leaf, 0, s, Leaf)
    else if n == 2 then N(Leaf, 0, s, N(Leaf, 1, s, Leaf))
    else if n == 3 then N(N(Leaf, 0, s, Leaf), 1, s, N(Leaf, 2, s, Leaf))
    else if n == 4 then N(N(Leaf, 0, s, Leaf), 1, s, N(Leaf, 2, s, N(Leaf, 4, s, Leaf)))
    else if n == 5 then N(N(Leaf, 0, s, Leaf), 1, s, N(N(Leaf, 2, s, Leaf), 4, s, N(Leaf, 5, s, Leaf)))
    else if n == 6 then N(N(N(Leaf, 0, s, Leaf), 1, s, N(Leaf, 2, s, Leaf)), 4, s, N(Leaf, 5, s, N(Leaf, 6, s, Leaf)))
    else if n == 7 then
      N(N(N(Leaf, 0, s, Leaf), 1, s, N(Leaf, 2, s, N(Leaf, 3, s, Leaf))), 4, s,
        N(Leaf, 5, s, N(Leaf, 6, s, Leaf)))
    else N(N(N(Leaf, 0, s, N(Leaf, 1, s, N(Leaf, 2, s, N(Leaf, 3, s, Leaf)))), 5, s, Leaf), 6, s, Leaf)
  }

  lemma Call0(s: Station)
    ensures Insert(Stage(0, s), K(0), s) == Ok(Stage(1, s))
  {
    KeysInOrder();
  }

  lemma Call1(s: Station)
    ensures Insert(Stage(1, s), K(1), s) == Ok(Stage(2, s))
  {
    KeysInOrder();
  }

  lemma Call2(s: Station)
    ensures Insert(Stage(2, s), K(2), s) == Ok(Stage(3, s))
  {
    KeysInOrder();
    assert Insert(N(Leaf, 1, s, Leaf), K(2), s) == Ok(N(Leaf, 1, s, N(Leaf, 2, s, Leaf)));
  }

  lemma Call3(s: Station)
    ensures Insert(Stage(3, s), K(4), s) == Ok(Stage(4, s))
  {
    KeysInOrder();
    assert Insert(N(Leaf, 2, s, Leaf), K(4), s) == Ok(N(Leaf, 2, s, N(Leaf, 4, s, Leaf)));
  }

  lemma Call4(s: Station)
    ensures Insert(Stage(4, s), K(5), s) == Ok(Stage(5, s))
  {
    KeysInOrder();
    assert Insert(N(Leaf, 4, s, Leaf), K(5), s) == Ok(N(Leaf, 4, s, N(Leaf, 5, s, Leaf)));
    assert Insert(N(Leaf, 2, s, N(Leaf, 4, s, Leaf)), K(5), s) == Ok(N(N(Leaf, 2, s, Leaf), 4, s, N(Leaf, 5, s, Leaf)));
  }

  lemma Call5(s: Station)
    ensures Insert(Stage(5, s), K(6), s) == Ok(Stage(6, s))
  {
    KeysInOrder();
    assert Insert(N(Leaf, 5, s, Leaf), K(6), s) == Ok(N(Leaf, 5, s, N(Leaf, 6, s, Leaf)));
    assert Insert(N(N(Leaf, 2, s, Leaf), 4, s, N(Leaf, 5, s, Leaf)), K(6), s) ==
           Ok(N(N(Leaf, 2, s, Leaf), 4, s, N(Leaf, 5, s, N(Leaf, 6, s, Leaf))));
  }

  lemma Call6(s: Station)
    ensures Insert(Stage(6, s), K(3), s) == Ok(Stage(7, s))
  {
    KeysInOrder();
    assert Insert(N(Leaf, 2, s, Leaf), K(3), s) == Ok(N(Leaf, 2, s, N(Leaf, 3, s, Leaf)));
    assert Insert(N(N(Leaf, 0, s, Leaf), 1, s, N(Leaf, 2, s, Leaf)), K(3), s) ==
           Ok(N(N(Leaf, 0, s, Leaf), 1, s, N(Leaf, 2, s, N(Leaf, 3, s, Leaf))));
  }

  lemma Call7(s: Station)
    ensures Delete(Stage(7, s), K(4), None, AsWritten) == Ok(Stage(8, s))
  {
    KeysInOrder();
  }

  lemma OneMoreCall(t: Tree, call: Call, next: Tree, rest: seq<Call>)
    requires Perform(t, call) == Ok(next)
    ensures Run(t, [call] + rest) == Run(next, rest)
  {
    assert ([call] + rest)[1..] == rest;
  }

  lemma FourCalls(
    t0: Tree, c0: Call, t1: Tree, c1: Call, t2: Tree, c2: Call, t3: Tree, c3: Call, t4: Tree, rest: seq<Call>)
    requires Perform(t0, c0) == Ok(t1) && Perform(t1, c1) == Ok(t2)
    requires Perform(t2, c2) == Ok(t3) && Perform(t3, c3) == Ok(t4)
    ensures Run(t0, InFront(c0, c1, c2, c3, rest)) == Run(t4, rest)
  {
    OneMoreCall(t0, c0, t1, [c1] + ([c2] + ([c3] + rest)));
    OneMoreCall(t1, c1, t2, [c2] + ([c3] + rest));
    OneMoreCall(t2, c2, t3, [c3] + rest);
    OneMoreCall(t3, c3, t4, rest);
  }

  lemma FirstFour(s: Station, rest: seq<Call>)
    ensures Run(Stage(0, s), InFront(Add(K(0), s), Add(K(1), s), Add(K(2), s), Add(K(4), s), rest)) ==
            Run(Stage(4, s), rest)
  {
    Call0(s); Call1(s); Call2(s); Call3(s);
    FourCalls(Stage(0, s), Add(K(0), s), Stage(1, s), Add(K(1), s), Stage(2, s), Add(K(2), s),
              Stage(3, s), Add(K(4), s), Stage(4, s), rest);
  }

  lemma NextFour(s: Station, rest: seq<Call>)
    ensures Run(Stage(4, s), InFront(Add(K(5), s), Add(K(6), s), Add(K(3), s), Remove(K(4), None), rest)) ==
            Run(Stage(8, s), rest)
  {
    Call4(s); Call5(s); Call6(s); Call7(s);
    FourCalls(Stage(4, s), Add(K(5), s), Stage(5, s), Add(K(6), s), Stage(6, s), Add(K(3), s),
              Stage(7, s), Remove(K(4), None), Stage(8, s), rest);
  }

  lemma LastCall(s: Station)
    ensures Insert(Stage(8, s), K(2), s) == Fault
  {
    KeysInOrder();
    var c, b := N(Leaf, 2, s, N(Leaf, 3, s, Leaf)), N(Leaf, 1, s, N(Leaf, 2, s, N(Leaf, 3, s, Leaf)));
    assert Insert(c, K(2), s) == Ok(c);
    assert Insert(b, K(2), s) == Fault;
    assert Insert(N(Leaf, 0, s, b), K(2), s) == Fault;
  }

  /** After eight calls without a fault, adding a station that is there already follows a NULL pointer. */
  lemma AddingAgainFaults(s: Station)
    ensures Run(Leaf, Schedule(s)) == Fault
    ensures Run(Leaf, Schedule(s)) == Run(Stage(8, s), [Add(K(2), s)])
  {
    NextFour(s, [Add(K(2), s)]);
    FirstFour(s, InFront(Add(K(5), s), Add(K(6), s), Add(K(3), s), Remove(K(4), None), [Add(K(2), s)]));
    LastCall(s);
  }
}
