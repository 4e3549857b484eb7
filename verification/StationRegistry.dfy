/**
 * The station registry in memory: nodes linked by pointers that insertion, deletion and the
 * rotations rewrite in place.  Every method is proved against the tree it stands for.
 */
module StationRegistry {
  import opened Wire
  import opened Wrappers
  import opened StationTree

  class NodeAVL {
    var index: int
    var radioID: int
    var staAddr: Mac
    var BSSID: Mac
    var height: int
    var left: NodeAVL?
    var right: NodeAVL?
    ghost var repr: set<NodeAVL>

    constructor (index: int, staAddr: Mac, BSSID: Mac, radioID: int)
      ensures TreeIs(this, Node(Leaf, staAddr, Station(index, radioID, BSSID), 0, Leaf))
      ensures repr == {this} && fresh(this)
    {
      this.index := index;
      this.radioID := radioID;
      this.staAddr := staAddr;
      this.BSSID := BSSID;
      height := 0;
      left := null;
      right := null;
      repr := {this};
    }
  }

  /** The nodes of the tree a pointer leads to */
  ghost function Repr(n: NodeAVL?): set<NodeAVL>
    reads n
  {
    if n == null then {} else n.repr
  }

  /** The children of a node are parts of the heap of their own. */
  ghost predicate OwnsChildren(n: NodeAVL)
    reads n, Repr(n)
    requires n in n.repr
  {
    && (n.left != null ==> n.left in n.repr) && (n.right != null ==> n.right in n.repr)
    && Repr(n.left) <= n.repr && Repr(n.right) <= n.repr
    && n !in Repr(n.left) && n !in Repr(n.right) && Repr(n.left) !! Repr(n.right)
    && n.repr == {n} + Repr(n.left) + Repr(n.right)
  }

  /** The tree a pointer stands for, if the nodes it leads to form one */
  ghost function TreeAt(n: NodeAVL?): Option<Tree>
    reads n, Repr(n)
    decreases Repr(n)
  {
    if n == null then Some(Leaf)
    else if n in n.repr && OwnsChildren(n) then
      match (TreeAt(n.left), TreeAt(n.right))
      case (Some(l), Some(r)) =>
        Some(Node(l, n.staAddr, Station(n.index, n.radioID, n.BSSID), n.height, r))
      case _ => None
    else None
  }

  ghost predicate TreeIs(n: NodeAVL?, t: Tree)
    reads n, Repr(n)
  {
    TreeAt(n) == Some(t)
  }

  /** AVLheight */
  function Height(n: NodeAVL?): int
    reads n
  {
    if n == null then -1 else n.height
  }

  /** AVLgetBalance */
  function BalanceOf(n: NodeAVL?): int
    reads n, if n == null then {} else {n.left, n.right}
  {
    if n == null then 0 else Height(n.left) - Height(n.right)
  }

  lemma HeightStands(n: NodeAVL?, t: Tree)
    requires TreeIs(n, t)
    ensures Height(n) == H(t)
  {}

  /** The children of a node could be l and r: three disjoint parts of the heap. */
  ghost predicate Apart(n: NodeAVL, l: NodeAVL?, r: NodeAVL?)
    reads l, r
  {
    n !in Repr(l) && n !in Repr(r) && Repr(l) !! Repr(r)
  }

  /** The assignments to root->left and root->right; the ghost trees are what the children stand for. */
  method SetChildren(n: NodeAVL, l: NodeAVL?, r: NodeAVL?, ghost lt: Tree, ghost rt: Tree)
    requires TreeIs(l, lt) && TreeIs(r, rt) && Apart(n, l, r)
    modifies n`left, n`right, n`repr
    ensures n.left == l && n.right == r && n.repr == {n} + Repr(l) + Repr(r)
    ensures TreeIs(n, Node(lt, n.staAddr, Station(n.index, n.radioID, n.BSSID), n.height, rt))
  {
    ghost var all := {n} + Repr(l) + Repr(r);
    n.left := l;
    n.right := r;
    n.repr := all;
    assert TreeAt(l) == Some(lt) && TreeAt(r) == Some(rt);
    assert OwnsChildren(n);
  }

  /** New children and the height they ask for */
  method Relink(n: NodeAVL, l: NodeAVL?, r: NodeAVL?, ghost lt: Tree, ghost rt: Tree)
    requires TreeIs(l, lt) && TreeIs(r, rt) && Apart(n, l, r)
    modifies n`left, n`right, n`repr, n`height
    ensures n.left == l && n.right == r && n.repr == {n} + Repr(l) + Repr(r)
    ensures TreeIs(n, Mk(lt, n.staAddr, Station(n.index, n.radioID, n.BSSID), rt))
  {
    HeightStands(l, lt);
    HeightStands(r, rt);
    n.height := Max(Height(l), Height(r)) + 1;
    SetChildren(n, l, r, lt, rt);
  }

  // ---------------------------------------------------------------- rotations

  /** The three subtrees that a rotation moves around two nodes, all apart from them and each other */
  ghost predicate FiveParts(k1: NodeAVL, k2: NodeAVL, a: NodeAVL?, b: NodeAVL?, c: NodeAVL?)
    reads a, b, c
  {
    && k1 != k2
    && k1 !in Repr(a) && k1 !in Repr(b) && k1 !in Repr(c)
    && k2 !in Repr(a) && k2 !in Repr(b) && k2 !in Repr(c)
    && Repr(a) !! Repr(b) && Repr(a) !! Repr(c) && Repr(b) !! Repr(c)
  }

  /** k1 above k2: a on the left of k1, b and c below k2 */
  method LinkRightwards(k1: NodeAVL, k2: NodeAVL, a: NodeAVL?, b: NodeAVL?, c: NodeAVL?,
                        ghost ta: Tree, ghost tb: Tree, ghost tc: Tree)
    requires TreeIs(a, ta) && TreeIs(b, tb) && TreeIs(c, tc) && FiveParts(k1, k2, a, b, c)
    modifies k1, k2
    ensures k1.repr == {k1} + Repr(a) + ({k2} + Repr(b) + Repr(c))
    ensures TreeIs(k1, Mk(ta, old(k1.staAddr), old(Station(k1.index, k1.radioID, k1.BSSID)),
                          Mk(tb, old(k2.staAddr), old(Station(k2.index, k2.radioID, k2.BSSID)), tc)))
  {
    Relink(k2, b, c, tb, tc);
    ghost var lower := Mk(tb, k2.staAddr, Station(k2.index, k2.radioID, k2.BSSID), tc);
    Relink(k1, a, k2, ta, lower);
  }

  /** k2 above k1: a and b below k1, c on the right of k2 */
  method LinkLeftwards(k1: NodeAVL, k2: NodeAVL, a: NodeAVL?, b: NodeAVL?, c: NodeAVL?,
                       ghost ta: Tree, ghost tb: Tree, ghost tc: Tree)
    requires TreeIs(a, ta) && TreeIs(b, tb) && TreeIs(c, tc) && FiveParts(k1, k2, a, b, c)
    modifies k1, k2
    ensures k2.repr == {k2} + ({k1} + Repr(a) + Repr(b)) + Repr(c)
    ensures TreeIs(k2, Mk(Mk(ta, old(k1.staAddr), old(Station(k1.index, k1.radioID, k1.BSSID)), tb),
                          old(k2.staAddr), old(Station(k2.index, k2.radioID, k2.BSSID)), tc))
  {
    Relink(k1, a, b, ta, tb);
    ghost var lower := Mk(ta, k1.staAddr, Station(k1.index, k1.radioID, k1.BSSID), tb);
    Relink(k2, k1, c, lower, tc);
  }

  /** What a pointer to a tree says about its children */
  lemma Children(n: NodeAVL, t: Tree)
    requires TreeIs(n, t)
    ensures t.Node? && TreeIs(n.left, t.left) && TreeIs(n.right, t.right) && Apart(n, n.left, n.right)
    ensures n.repr == {n} + Repr(n.left) + Repr(n.right)
    ensures t.key == n.staAddr && t.height == n.height && t.station == Station(n.index, n.radioID, n.BSSID)
  {}

  /** AVLsingle_rotate_with_left, to be called only if there is a left child */
  method SingleRotateWithLeft(k2: NodeAVL, ghost t: Tree) returns (k1: NodeAVL)
    requires TreeIs(k2, t) && k2.left != null
    modifies k2, k2.left
    ensures k1.repr == old(k2.repr)
    ensures RotateWithLeft(t).Ok? && TreeIs(k1, RotateWithLeft(t).tree)
  {
    Children(k2, t);
    k1 := k2.left;
    Children(k1, t.left);
    var a, b, c := k1.left, k1.right, k2.right;
    LinkRightwards(k1, k2, a, b, c, t.left.left, t.left.right, t.right);
  }

  /** AVLsingle_rotate_with_right, to be called only if there is a right child */
  method SingleRotateWithRight(k1: NodeAVL, ghost t: Tree) returns (k2: NodeAVL)
    requires TreeIs(k1, t) && k1.right != null
    modifies k1, k1.right
    ensures k2.repr == old(k1.repr)
    ensures RotateWithRight(t).Ok? && TreeIs(k2, RotateWithRight(t).tree)
  {
    Children(k1, t);
    k2 := k1.right;
    Children(k2, t.right);
    var a, b, c := k1.left, k2.left, k2.right;
    LinkLeftwards(k1, k2, a, b, c, t.left, t.right.left, t.right.right);
  }

  /** AVLdouble_rotate_with_left, to be called only if the left child has a right child */
  method DoubleRotateWithLeft(k3: NodeAVL, ghost t: Tree) returns (r: NodeAVL)
    requires TreeIs(k3, t) && k3.left != null && k3.left.right != null
    modifies k3.repr
    ensures r.repr == old(k3.repr)
    ensures DoubleWithLeft(t).Ok? && TreeIs(r, DoubleWithLeft(t).tree)
  {
    Children(k3, t);
    Children(k3.left, t.left);
    Children(k3.left.right, t.left.right);
    var child := SingleRotateWithRight(k3.left, t.left);
    ghost var rotated := RotateWithRight(t.left).tree;
    SetChildren(k3, child, k3.right, rotated, t.right);
    r := SingleRotateWithLeft(k3, t.(left := rotated));
  }

  /** AVLdouble_rotate_with_right, to be called only if the right child has a left child */
  method DoubleRotateWithRight(k1: NodeAVL, ghost t: Tree) returns (r: NodeAVL)
    requires TreeIs(k1, t) && k1.right != null && k1.right.left != null
    modifies k1.repr
    ensures r.repr == old(k1.repr)
    ensures DoubleWithRight(t).Ok? && TreeIs(r, DoubleWithRight(t).tree)
  {
    Children(k1, t);
    Children(k1.right, t.right);
    Children(k1.right.left, t.right.left);
    var child := SingleRotateWithLeft(k1.right, t.right);
    ghost var rotated := RotateWithLeft(t.right).tree;
    SetChildren(k1, k1.left, child, t.left, rotated);
    r := SingleRotateWithRight(k1, t.(right := rotated));
  }

  // ---------------------------------------------------------------- insertion

  method UpdateHeight(n: NodeAVL, ghost t: Tree)
    requires TreeIs(n, t)
    modifies n`left, n`right, n`repr, n`height
    ensures n.repr == old(n.repr) && TreeIs(n, Refresh(t))
  {
    Children(n, t);
    Relink(n, n.left, n.right, t.left, t.right);
  }

  /** The rotation after an insertion on the left, then the height */
  method RotateAfterInsertLeft(t: NodeAVL, staAddr: Mac, ghost u: Tree) returns (r: NodeAVL, fault: bool)
    requires TreeIs(t, u) && u.Node? && u.left.Node?
    modifies t.repr
    ensures fault <==> AfterInsertLeft(u, staAddr).Fault?
    ensures !fault ==> r.repr == old(t.repr) && TreeIs(r, AfterInsertLeft(u, staAddr).tree)
  {
    Children(t, u);
    Children(t.left, u.left);
    HeightStands(t.left, u.left);
    HeightStands(t.right, u.right);
    r, fault := t, false;
    if Height(t.left) - Height(t.right) == 2 {
      var c := CompareEthAddr(staAddr, t.left.staAddr);
      if c < 0 {
        r := SingleRotateWithLeft(t, u);
        UpdateHeight(r, RotateWithLeft(u).tree);
      } else if t.left.right == null {
        fault := true;
      } else {
        r := DoubleRotateWithLeft(t, u);
        UpdateHeight(r, DoubleWithLeft(u).tree);
      }
    } else {
      UpdateHeight(t, u);
    }
  }

  method RotateAfterInsertRight(t: NodeAVL, staAddr: Mac, ghost u: Tree) returns (r: NodeAVL, fault: bool)
    requires TreeIs(t, u) && u.Node? && u.right.Node?
    modifies t.repr
    ensures fault <==> AfterInsertRight(u, staAddr).Fault?
    ensures !fault ==> r.repr == old(t.repr) && TreeIs(r, AfterInsertRight(u, staAddr).tree)
  {
    Children(t, u);
    Children(t.right, u.right);
    HeightStands(t.left, u.left);
    HeightStands(t.right, u.right);
    r, fault := t, false;
    if Height(t.right) - Height(t.left) == 2 {
      var c := CompareEthAddr(staAddr, t.right.staAddr);
      if c > 0 {
        r := SingleRotateWithRight(t, u);
        UpdateHeight(r, RotateWithRight(u).tree);
      } else if t.right.left == null {
        fault := true;
      } else {
        r := DoubleRotateWithRight(t, u);
        UpdateHeight(r, DoubleWithRight(u).tree);
      }
    } else {
      UpdateHeight(t, u);
    }
  }

  /** AVLinsert; `fault` says that the code follows a NULL pointer, which no AVL tree makes it do. */
  method AVLinsert(index: int, staAddr: Mac, BSSID: Mac, radioID: int, t: NodeAVL?, ghost tree: Tree)
    returns (r: NodeAVL?, fault: bool)
    requires TreeIs(t, tree)
    modifies Repr(t)
    ensures fault <==> Insert(tree, staAddr, Station(index, radioID, BSSID)).Fault?
    ensures !fault ==> r != null && fresh(Repr(r) - old(Repr(t)))
    ensures !fault ==> TreeIs(r, Insert(tree, staAddr, Station(index, radioID, BSSID)).tree)
    decreases tree
  {
    if t == null {
      r := new NodeAVL(index, staAddr, BSSID, radioID);
      return r, false;
    }
    Children(t, tree);
    var c := CompareEthAddr(staAddr, t.staAddr);
    if c < 0 {
      r, fault := InsertOnLeft(index, staAddr, BSSID, radioID, t, tree);
    } else if c > 0 {
      r, fault := InsertOnRight(index, staAddr, BSSID, radioID, t, tree);
    } else {
      UpdateHeight(t, tree);
      r, fault := t, false;
    }
  }

  method InsertOnLeft(index: int, staAddr: Mac, BSSID: Mac, radioID: int, t: NodeAVL, ghost tree: Tree)
    returns (r: NodeAVL?, fault: bool)
    requires TreeIs(t, tree) && tree.Node? && Value(staAddr) < Value(tree.key)
    modifies t.repr
    ensures fault <==> Insert(tree, staAddr, Station(index, radioID, BSSID)).Fault?
    ensures !fault ==> r != null && fresh(Repr(r) - old(t.repr))
    ensures !fault ==> TreeIs(r, Insert(tree, staAddr, Station(index, radioID, BSSID)).tree)
    decreases tree, 0
  {
    Children(t, tree);
    var child;
    child, fault := AVLinsert(index, staAddr, BSSID, radioID, t.left, tree.left);
    if fault { return null, true; }
    ghost var grown := Insert(tree.left, staAddr, Station(index, radioID, BSSID)).tree;
    assert TreeIs(t.right, tree.right);
    SetChildren(t, child, t.right, grown, tree.right);
    r, fault := RotateAfterInsertLeft(t, staAddr, tree.(left := grown));
  }

  method InsertOnRight(index: int, staAddr: Mac, BSSID: Mac, radioID: int, t: NodeAVL, ghost tree: Tree)
    returns (r: NodeAVL?, fault: bool)
    requires TreeIs(t, tree) && tree.Node? && Value(staAddr) > Value(tree.key)
    modifies t.repr
    ensures fault <==> Insert(tree, staAddr, Station(index, radioID, BSSID)).Fault?
    ensures !fault ==> r != null && fresh(Repr(r) - old(t.repr))
    ensures !fault ==> TreeIs(r, Insert(tree, staAddr, Station(index, radioID, BSSID)).tree)
    decreases tree, 0
  {
    Children(t, tree);
    var child;
    child, fault := AVLinsert(index, staAddr, BSSID, radioID, t.right, tree.right);
    if fault { return null, true; }
    ghost var grown := Insert(tree.right, staAddr, Station(index, radioID, BSSID)).tree;
    assert TreeIs(t.left, tree.left);
    SetChildren(t, t.left, child, tree.left, grown);
    r, fault := RotateAfterInsertRight(t, staAddr, tree.(right := grown));
  }

  // ---------------------------------------------------------------- deletion

  /** AVLminValueNode: down the left children */
  method MinValueNode(node: NodeAVL, ghost t: Tree) returns (current: NodeAVL)
    requires TreeIs(node, t)
    ensures t.Node? && current.staAddr == MinNode(t).key
    ensures Station(current.index, current.radioID, current.BSSID) == MinNode(t).station
  {
    current := node;
    ghost var cur := t;
    while current.left != null
      invariant TreeIs(current, cur) && MinNode(cur) == MinNode(t)
      decreases cur
    {
      Children(current, cur);
      current, cur := current.left, cur.left;
    }
    Children(current, cur);
  }

  /** AVLfind: the node of the tree that has the address */
  method AVLfind(staAddr: Mac, t: NodeAVL?, ghost tree: Tree) returns (r: NodeAVL?)
    requires TreeIs(t, tree)
    ensures TreeIs(r, Find(tree, staAddr)) && (r != null ==> r in Repr(t))
    decreases tree
  {
    if t == null {
      return null;
    }
    Children(t, tree);
    var c := CompareEthAddr(staAddr, t.staAddr);
    if c < 0 {
      r := AVLfind(staAddr, t.left, tree.left);
    } else if c > 0 {
      r := AVLfind(staAddr, t.right, tree.right);
    } else {
      r := t;
    }
  }

  /** The four cases at the end of a deletion, with the rotations as the code has them */
  method RebalanceAsWritten(root: NodeAVL, ghost t: Tree) returns (r: NodeAVL, fault: bool)
    requires TreeIs(root, t)
    modifies root.repr
    ensures fault <==> Rebalance(t, AsWritten).Fault?
    ensures !fault ==> r.repr == old(root.repr) && TreeIs(r, Rebalance(t, AsWritten).tree)
  {
    Children(root, t);
    BalanceStands(root, t);
    BalanceStands(root.left, t.left);
    BalanceStands(root.right, t.right);
    var balance := BalanceOf(root);
    r, fault := root, false;
    if balance > 1 && BalanceOf(root.left) >= 0 {
      r, fault := TryRotateWithRight(root, t);
    } else if balance > 1 {
      r, fault := TryRotateLeftChild(root, t);
    } else if balance < -1 && BalanceOf(root.right) <= 0 {
      r, fault := TryRotateWithLeft(root, t);
    } else if balance < -1 {
      r, fault := TryRotateRightChild(root, t);
    }
  }

  lemma BalanceStands(n: NodeAVL?, t: Tree)
    requires TreeIs(n, t)
    ensures BalanceOf(n) == Balance(t)
  {
    if n != null {
      Children(n, t);
      HeightStands(n.left, t.left);
      HeightStands(n.right, t.right);
    }
  }

  /** A rotation that is called without looking whether the child is there */
  method TryRotateWithRight(root: NodeAVL, ghost t: Tree) returns (r: NodeAVL, fault: bool)
    requires TreeIs(root, t)
    modifies root.repr
    ensures fault <==> RotateWithRight(t).Fault?
    ensures !fault ==> r.repr == old(root.repr) && TreeIs(r, RotateWithRight(t).tree)
  {
    Children(root, t);
    if root.right == null {
      return root, true;
    }
    Children(root.right, t.right);
    r := SingleRotateWithRight(root, t);
    fault := false;
  }

  method TryRotateWithLeft(root: NodeAVL, ghost t: Tree) returns (r: NodeAVL, fault: bool)
    requires TreeIs(root, t)
    modifies root.repr
    ensures fault <==> RotateWithLeft(t).Fault?
    ensures !fault ==> r.repr == old(root.repr) && TreeIs(r, RotateWithLeft(t).tree)
  {
    Children(root, t);
    if root.left == null {
      return root, true;
    }
    Children(root.left, t.left);
    r := SingleRotateWithLeft(root, t);
    fault := false;
  }

  /** The left child is rotated with its left child, then the root with its right child. */
  method TryRotateLeftChild(root: NodeAVL, ghost t: Tree) returns (r: NodeAVL, fault: bool)
    requires TreeIs(root, t)
    modifies root.repr
    ensures fault <==> ThenWithRight(AfterLeft(t, RotateWithLeft(t.left))).Fault?
    ensures !fault ==> r.repr == old(root.repr)
                       && TreeIs(r, ThenWithRight(AfterLeft(t, RotateWithLeft(t.left))).tree)
  {
    Children(root, t);
    if root.left == null {
      return root, true;
    }
    Children(root.left, t.left);
    var child;
    child, fault := TryRotateWithLeft(root.left, t.left);
    if fault { return root, true; }
    ghost var rotated := RotateWithLeft(t.left).tree;
    SetChildren(root, child, root.right, rotated, t.right);
    r, fault := TryRotateWithRight(root, t.(left := rotated));
  }

  method TryRotateRightChild(root: NodeAVL, ghost t: Tree) returns (r: NodeAVL, fault: bool)
    requires TreeIs(root, t)
    modifies root.repr
    ensures fault <==> ThenWithLeft(AfterRight(t, RotateWithRight(t.right))).Fault?
    ensures !fault ==> r.repr == old(root.repr)
                       && TreeIs(r, ThenWithLeft(AfterRight(t, RotateWithRight(t.right))).tree)
  {
    Children(root, t);
    if root.right == null {
      return root, true;
    }
    Children(root.right, t.right);
    var child;
    child, fault := TryRotateWithRight(root.right, t.right);
    if fault { return root, true; }
    ghost var rotated := RotateWithRight(t.right).tree;
    SetChildren(root, root.left, child, t.left, rotated);
    r, fault := TryRotateWithLeft(root, t.(right := rotated));
  }

  /** Height, balance, rotation */
  method FinishDelete(root: NodeAVL, ghost t: Tree) returns (r: NodeAVL, fault: bool)
    requires TreeIs(root, t)
    modifies root.repr
    ensures t.Node?
    ensures fault <==> Finish(t, AsWritten).Fault?
    ensures !fault ==> r.repr == old(root.repr) && TreeIs(r, Finish(t, AsWritten).tree)
  {
    Children(root, t);
    UpdateHeight(root, t);
    r, fault := RebalanceAsWritten(root, Refresh(t));
  }

  /** The root takes over the data of another node. */
  method CopyData(root: NodeAVL, from: NodeAVL, ghost t: Tree)
    requires TreeIs(root, t)
    modifies root`index, root`radioID, root`staAddr, root`BSSID
    ensures t.Node? && root.repr == old(root.repr)
    ensures TreeIs(root, t.(key := old(from.staAddr), station := old(Station(from.index, from.radioID, from.BSSID))))
  {
    Children(root, t);
    root.index, root.radioID, root.staAddr, root.BSSID := from.index, from.radioID, from.staAddr, from.BSSID;
    assert TreeIs(root.left, t.left) && TreeIs(root.right, t.right);
  }

  /** The fields of a node other than its children */
  method CopyFields(root: NodeAVL, from: NodeAVL)
    modifies root`index, root`radioID, root`staAddr, root`BSSID, root`height
    ensures root.index == old(from.index) && root.radioID == old(from.radioID)
    ensures root.staAddr == old(from.staAddr) && root.BSSID == old(from.BSSID) && root.height == old(from.height)
  {
    root.index, root.radioID, root.staAddr, root.BSSID := from.index, from.radioID, from.staAddr, from.BSSID;
    root.height := from.height;
  }

  /** *root = *temp for the only child, which is then freed */
  method TakeOverChild(root: NodeAVL, temp: NodeAVL, ghost t: Tree, ghost child: Tree)
    requires TreeIs(root, t) && (temp == root.left || temp == root.right) && TreeIs(temp, child)
    modifies root
    ensures root.repr <= old(root.repr)
    ensures TreeIs(root, child)
  {
    Children(root, t);
    Children(temp, child);
    var l, r := temp.left, temp.right;
    CopyFields(root, temp);
    assert TreeIs(l, child.left) && TreeIs(r, child.right);
    SetChildren(root, l, r, child.left, child.right);
  }

  /**
   * AVLdeleteNode (with a radio to compare) and AVLdeleteNodeWithoutRadioID (without).  The
   * address is passed as a value: the code passes a pointer into the node it removes, but
   * compares nothing after it has overwritten that node.
   */
  method AVLdeleteNode(root: NodeAVL?, staAddr: Mac, radio: Option<int>, ghost t: Tree)
    returns (r: NodeAVL?, fault: bool)
    requires TreeIs(root, t)
    modifies Repr(root)
    ensures fault <==> Delete(t, staAddr, radio, AsWritten).Fault?
    ensures !fault ==> Repr(r) <= old(Repr(root))
    ensures !fault ==> TreeIs(r, Delete(t, staAddr, radio, AsWritten).tree)
    decreases t
  {
    if root == null {
      return null, false;
    }
    Children(root, t);
    var c := CompareEthAddr(staAddr, root.staAddr);
    if c < 0 {
      r, fault := DeleteOnLeft(root, staAddr, radio, t);
    } else if c > 0 {
      r, fault := DeleteOnRight(root, staAddr, radio, t);
    } else {
      r, fault := DeleteHere(root, radio, t);
    }
  }

  method DeleteOnLeft(root: NodeAVL, staAddr: Mac, radio: Option<int>, ghost t: Tree)
    returns (r: NodeAVL?, fault: bool)
    requires TreeIs(root, t) && t.Node? && Value(staAddr) < Value(t.key)
    modifies root.repr
    ensures fault <==> Delete(t, staAddr, radio, AsWritten).Fault?
    ensures !fault ==> Repr(r) <= old(root.repr)
    ensures !fault ==> TreeIs(r, Delete(t, staAddr, radio, AsWritten).tree)
    decreases t, 0
  {
    Children(root, t);
    var child;
    child, fault := AVLdeleteNode(root.left, staAddr, radio, t.left);
    if fault { return null, true; }
    ghost var rest := Delete(t.left, staAddr, radio, AsWritten).tree;
    assert TreeIs(root.right, t.right);
    SetChildren(root, child, root.right, rest, t.right);
    r, fault := FinishDelete(root, t.(left := rest));
  }

  method DeleteOnRight(root: NodeAVL, staAddr: Mac, radio: Option<int>, ghost t: Tree)
    returns (r: NodeAVL?, fault: bool)
    requires TreeIs(root, t) && t.Node? && Value(t.key) < Value(staAddr)
    modifies root.repr
    ensures fault <==> Delete(t, staAddr, radio, AsWritten).Fault?
    ensures !fault ==> Repr(r) <= old(root.repr)
    ensures !fault ==> TreeIs(r, Delete(t, staAddr, radio, AsWritten).tree)
    decreases t, 1
  {
    r, fault := DeleteFromRight(root, staAddr, radio, t, t);
  }

  /** The deletion in the right subtree and what follows it; `before` is what the root was before it took new data. */
  method DeleteFromRight(root: NodeAVL, staAddr: Mac, radio: Option<int>, ghost t: Tree, ghost before: Tree)
    returns (r: NodeAVL?, fault: bool)
    requires TreeIs(root, t) && t.Node? && before.Node? && before.right == t.right
    modifies root.repr
    ensures var child := Delete(t.right, staAddr, radio, AsWritten);
            && (fault <==> child.Fault? || Finish(t.(right := child.tree), AsWritten).Fault?)
            && (!fault ==> Repr(r) <= old(root.repr) && TreeIs(r, Finish(t.(right := child.tree), AsWritten).tree))
    decreases before, 0
  {
    Children(root, t);
    var child;
    child, fault := AVLdeleteNode(root.right, staAddr, radio, t.right);
    if fault { return null, true; }
    ghost var rest := Delete(t.right, staAddr, radio, AsWritten).tree;
    assert TreeIs(root.left, t.left);
    SetChildren(root, root.left, child, t.left, rest);
    r, fault := FinishDelete(root, t.(right := rest));
  }

  /** The node with the address is the root. */
  method DeleteHere(root: NodeAVL, radio: Option<int>, ghost t: Tree) returns (r: NodeAVL?, fault: bool)
    requires TreeIs(root, t) && t.Node?
    modifies root.repr
    ensures fault <==> Delete(t, t.key, radio, AsWritten).Fault?
    ensures !fault ==> Repr(r) <= old(root.repr)
    ensures !fault ==> TreeIs(r, Delete(t, t.key, radio, AsWritten).tree)
    decreases t, 2
  {
    Children(root, t);
    if radio != None && root.radioID != radio.value {
      r, fault := FinishDelete(root, t);
    } else if root.left == null || root.right == null {
      if root.left == null && root.right == null {
        return null, false;
      }
      var temp := if root.left != null then root.left else root.right;
      ghost var child := if root.left != null then t.left else t.right;
      TakeOverChild(root, temp, t, child);
      r, fault := FinishDelete(root, child);
    } else {
      r, fault := DeleteWithSuccessor(root, radio, t);
    }
  }

  /** The root has two children: it takes over the successor, which is deleted on the right. */
  method DeleteWithSuccessor(root: NodeAVL, radio: Option<int>, ghost t: Tree) returns (r: NodeAVL?, fault: bool)
    requires TreeIs(root, t) && t.Node? && t.left.Node? && t.right.Node? && Matches(t.station, radio)
    modifies root.repr
    ensures fault <==> Delete(t, t.key, radio, AsWritten).Fault?
    ensures !fault ==> Repr(r) <= old(root.repr)
    ensures !fault ==> TreeIs(r, Delete(t, t.key, radio, AsWritten).tree)
    decreases t, 1
  {
    Children(root, t);
    var temp := MinValueNode(root.right, t.right);
    ghost var s := MinNode(t.right);
    var address, successorRadio := temp.staAddr, if radio == None then None else Some(temp.radioID);
    CopyData(root, temp, t);
    r, fault := DeleteFromRight(root, address, successorRadio, t.(key := s.key, station := s.station), t);
  }
}
