/**
 * The station registry as a value: a tree of stations keyed by MAC address, with the
 * insertion, deletion and rotations of capwap/CWAVL.c.  `Fault` marks the executions that
 * follow a NULL pointer.
 *
 * Deletion rebalances with the two rotations the other way round than insertion does
 * (CWAVL.c:330-349 against CWAVL.c:212-225).  Both versions are here: `AsWritten` is the
 * code, `Intended` is the same code with the rotations exchanged.
 */
module StationTree {
  import opened Wire
  import opened Wrappers

  /** WTP index, radio and BSSID of a station */
  datatype Station = Station(index: int, radioID: int, bssid: Mac)

  /** `height` is the stored field, whatever it says. */
  datatype Tree = Leaf | Node(left: Tree, key: Mac, station: Station, height: int, right: Tree)

  datatype Result = Fault | Ok(tree: Tree)

  datatype Rotations = AsWritten | Intended

  // ---------------------------------------------------------------- addresses

  /** The first n bytes of an address as a big-endian number */
  function Prefix(mac: Mac, n: nat): nat
    requires n <= ETH_ALEN
  {
    if n == 0 then 0 else Prefix(mac, n - 1) * 256 + mac[n - 1]
  }

  function Value(mac: Mac): nat {
    Prefix(mac, ETH_ALEN)
  }

  lemma {:induction false} LargerPrefix(a: Mac, b: Mac, i: nat, n: nat)
    requires i <= n <= ETH_ALEN && Prefix(a, i) < Prefix(b, i)
    ensures Prefix(a, n) < Prefix(b, n)
    decreases n
  {
    if i < n { LargerPrefix(a, b, i, n - 1); }
  }

  lemma {:induction false} SamePrefix(a: Mac, b: Mac, n: nat)
    requires n <= ETH_ALEN
    ensures Prefix(a, n) == Prefix(b, n) <==> a[..n] == b[..n]
    decreases n
  {
    if n > 0 {
      SamePrefix(a, b, n - 1);
      assert a[..n] == a[..n - 1] + [a[n - 1]] && b[..n] == b[..n - 1] + [b[n - 1]];
      if a[..n] == b[..n] {
        assert a[..n][n - 1] == b[..n][n - 1] && a[..n][..n - 1] == b[..n][..n - 1];
        assert a[..n][..n - 1] == a[..n - 1] && b[..n][..n - 1] == b[..n - 1];
      }
    }
  }

  /** Addresses with the same value are the same address. */
  lemma ValueIsInjective(a: Mac, b: Mac)
    ensures Value(a) == Value(b) <==> a == b
  {
    SamePrefix(a, b, ETH_ALEN);
    assert a[..ETH_ALEN] == a && b[..ETH_ALEN] == b;
  }

  lemma DiffersBehind(a: Mac, b: Mac, n: nat)
    requires n <= ETH_ALEN && a[..n] == b[..n] && a != b
    ensures n < ETH_ALEN
  {
    assert a[..ETH_ALEN] == a && b[..ETH_ALEN] == b;
  }

  lemma {:induction false} FirstDifference(a: Mac, b: Mac, n: nat) returns (i: nat)
    requires n <= ETH_ALEN && a[..n] == b[..n] && a != b
    ensures i < ETH_ALEN && a[..i] == b[..i] && a[i] != b[i]
    decreases ETH_ALEN - n
  {
    DiffersBehind(a, b, n);
    if a[n] != b[n] {
      i := n;
    } else {
      assert a[..n + 1] == a[..n] + [a[n]] && b[..n + 1] == b[..n] + [b[n]];
      i := FirstDifference(a, b, n + 1);
    }
  }

  lemma SmallerAtDifference(a: Mac, b: Mac, i: nat)
    requires i < ETH_ALEN && a[..i] == b[..i] && a[i] < b[i]
    ensures Value(a) < Value(b)
  {
    SamePrefix(a, b, i);
    LargerPrefix(a, b, i + 1, ETH_ALEN);
  }

  /** The order of the values is that of the first byte in which two addresses differ. */
  lemma ValueIsLexicographic(a: Mac, b: Mac)
    ensures Value(a) < Value(b) <==> exists i :: 0 <= i < ETH_ALEN && a[..i] == b[..i] && a[i] < b[i]
  {
    ValueIsInjective(a, b);
    if a != b {
      var i := FirstDifference(a, b, 0);
      if a[i] < b[i] { SmallerAtDifference(a, b, i); } else { SmallerAtDifference(b, a, i); }
    }
    if i :| 0 <= i < ETH_ALEN && a[..i] == b[..i] && a[i] < b[i] { SmallerAtDifference(a, b, i); }
  }

  /** compareEthAddr: byte by byte, which is the order of the values */
  method CompareEthAddr(a: Mac, b: Mac) returns (r: int)
    ensures r == -1 || r == 0 || r == 1
    ensures r < 0 <==> Value(a) < Value(b)
    ensures r > 0 <==> Value(a) > Value(b)
    ensures r == 0 <==> a == b
  {
    for i := 0 to ETH_ALEN
      invariant Prefix(a, i) == Prefix(b, i)
    {
      if a[i] > b[i] {
        LargerPrefix(b, a, i + 1, ETH_ALEN);
        ValueIsInjective(a, b);
        return 1;
      }
      if a[i] < b[i] {
        LargerPrefix(a, b, i + 1, ETH_ALEN);
        ValueIsInjective(a, b);
        return -1;
      }
    }
    ValueIsInjective(a, b);
    return 0;
  }

  // ---------------------------------------------------------------- shape

  function Max(l: int, r: int): int {
    if l > r then l else r
  }

  /** AVLheight: the stored height, -1 for no node */
  function H(t: Tree): int {
    if t.Leaf? then -1 else t.height
  }

  /** AVLgetBalance */
  function Balance(t: Tree): int {
    if t.Leaf? then 0 else H(t.left) - H(t.right)
  }

  /** A node with the height its children ask for */
  function Mk(left: Tree, key: Mac, station: Station, right: Tree): Tree {
    Node(left, key, station, Max(H(left), H(right)) + 1, right)
  }

  /** The statement that recomputes the height of a node */
  function Refresh(t: Tree): Tree {
    if t.Leaf? then t else Mk(t.left, t.key, t.station, t.right)
  }

  function RotateWithLeft(k2: Tree): Result {
    if k2.Leaf? || k2.left.Leaf? then Fault
    else
      var k1 := k2.left;
      Ok(Mk(k1.left, k1.key, k1.station, Mk(k1.right, k2.key, k2.station, k2.right)))
  }

  function RotateWithRight(k1: Tree): Result {
    if k1.Leaf? || k1.right.Leaf? then Fault
    else
      var k2 := k1.right;
      Ok(Mk(Mk(k1.left, k1.key, k1.station, k2.left), k2.key, k2.station, k2.right))
  }

  /** The left child is rotated first. */
  function AfterLeft(t: Tree, child: Result): Result {
    if child.Fault? || t.Leaf? then Fault else Ok(t.(left := child.tree))
  }

  function AfterRight(t: Tree, child: Result): Result {
    if child.Fault? || t.Leaf? then Fault else Ok(t.(right := child.tree))
  }

  function ThenWithLeft(r: Result): Result {
    if r.Fault? then Fault else RotateWithLeft(r.tree)
  }

  function ThenWithRight(r: Result): Result {
    if r.Fault? then Fault else RotateWithRight(r.tree)
  }

  function DoubleWithLeft(k3: Tree): Result {
    if k3.Leaf? then Fault else ThenWithLeft(AfterLeft(k3, RotateWithRight(k3.left)))
  }

  function DoubleWithRight(k1: Tree): Result {
    if k1.Leaf? then Fault else ThenWithRight(AfterRight(k1, RotateWithLeft(k1.right)))
  }

  // ---------------------------------------------------------------- insertion

  function RefreshResult(r: Result): Result {
    if r.Fault? then Fault else Ok(Refresh(r.tree))
  }

  /** The rotation after an insertion on the left, then the height */
  function AfterInsertLeft(t: Tree, key: Mac): Result
    requires t.Node? && t.left.Node?
  {
    if H(t.left) - H(t.right) == 2 then
      RefreshResult(if Value(key) < Value(t.left.key) then RotateWithLeft(t) else DoubleWithLeft(t))
    else Ok(Refresh(t))
  }

  function AfterInsertRight(t: Tree, key: Mac): Result
    requires t.Node? && t.right.Node?
  {
    if H(t.right) - H(t.left) == 2 then
      RefreshResult(if Value(key) > Value(t.right.key) then RotateWithRight(t) else DoubleWithRight(t))
    else Ok(Refresh(t))
  }

  /** AVLinsert */
  function Insert(t: Tree, key: Mac, station: Station): (r: Result)
    ensures r.Ok? ==> r.tree.Node?
  {
    if t.Leaf? then Ok(Node(Leaf, key, station, 0, Leaf))
    else if Value(key) < Value(t.key) then
      var child := Insert(t.left, key, station);
      if child.Fault? then Fault else AfterInsertLeft(t.(left := child.tree), key)
    else if Value(key) > Value(t.key) then
      var child := Insert(t.right, key, station);
      if child.Fault? then Fault else AfterInsertRight(t.(right := child.tree), key)
    else Ok(Refresh(t))
  }

  // ---------------------------------------------------------------- deletion

  /** AVLminValueNode */
  function MinNode(t: Tree): (m: Tree)
    requires t.Node?
    ensures m.Node? && m.left.Leaf?
  {
    if t.left.Leaf? then t else MinNode(t.left)
  }

  /** The four cases at the end of a deletion */
  function Rebalance(t: Tree, rot: Rotations): Result
    requires t.Node?
  {
    if Balance(t) > 1 && Balance(t.left) >= 0 then
      if rot.AsWritten? then RotateWithRight(t) else RotateWithLeft(t)
    else if Balance(t) > 1 then
      if rot.AsWritten? then ThenWithRight(AfterLeft(t, RotateWithLeft(t.left)))
      else ThenWithLeft(AfterLeft(t, RotateWithRight(t.left)))
    else if Balance(t) < -1 && Balance(t.right) <= 0 then
      if rot.AsWritten? then RotateWithLeft(t) else RotateWithRight(t)
    else if Balance(t) < -1 then
      if rot.AsWritten? then ThenWithLeft(AfterRight(t, RotateWithRight(t.right)))
      else ThenWithRight(AfterRight(t, RotateWithLeft(t.right)))
    else Ok(t)
  }

  function Finish(t: Tree, rot: Rotations): Result
    requires t.Node?
  {
    Rebalance(Refresh(t), rot)
  }

  /** Which deletion: AVLdeleteNode compares the radio, AVLdeleteNodeWithoutRadioID does not. */
  predicate Matches(station: Station, radio: Option<int>) {
    radio.None? || station.radioID == radio.value
  }

  /** The radio that the recursive call for the successor compares with */
  function SuccessorRadio(radio: Option<int>, successor: Station): Option<int> {
    if radio.None? then None else Some(successor.radioID)
  }

  /** AVLdeleteNode and AVLdeleteNodeWithoutRadioID */
  function Delete(t: Tree, key: Mac, radio: Option<int>, rot: Rotations): Result {
    if t.Leaf? then Ok(Leaf)
    else if Value(key) < Value(t.key) then
      var child := Delete(t.left, key, radio, rot);
      if child.Fault? then Fault else Finish(t.(left := child.tree), rot)
    else if Value(key) > Value(t.key) then
      var child := Delete(t.right, key, radio, rot);
      if child.Fault? then Fault else Finish(t.(right := child.tree), rot)
    else if !Matches(t.station, radio) then Finish(t, rot)
    else if t.left.Leaf? && t.right.Leaf? then Ok(Leaf)
    else if t.left.Leaf? then Finish(t.right, rot)
    else if t.right.Leaf? then Finish(t.left, rot)
    else
      var s := MinNode(t.right);
      var child := Delete(t.right, s.key, SuccessorRadio(radio, s.station), rot);
      if child.Fault? then Fault
      else Finish(t.(key := s.key, station := s.station, right := child.tree), rot)
  }

  // ---------------------------------------------------------------- lookup

  /** AVLfind */
  function Find(t: Tree, key: Mac): Tree {
    if t.Leaf? then Leaf
    else if Value(key) < Value(t.key) then Find(t.left, key)
    else if Value(key) > Value(t.key) then Find(t.right, key)
    else t
  }

  /** How many nodes AVLfind looks at */
  function Visits(t: Tree, key: Mac): nat {
    if t.Leaf? then 0
    else if Value(key) < Value(t.key) then 1 + Visits(t.left, key)
    else if Value(key) > Value(t.key) then 1 + Visits(t.right, key)
    else 1
  }

  // ---------------------------------------------------------------- meaning

  /** The stations of a tree with their addresses */
  function Items(t: Tree): set<(Mac, Station)> {
    if t.Leaf? then {} else Items(t.left) + {(t.key, t.station)} + Items(t.right)
  }

  function AsMap(t: Tree): map<Mac, Station> {
    if t.Leaf? then map[] else AsMap(t.left) + AsMap(t.right) + map[t.key := t.station]
  }

  ghost predicate Below(items: set<(Mac, Station)>, key: Mac) {
    forall e :: e in items ==> Value(e.0) < Value(key)
  }

  ghost predicate Above(items: set<(Mac, Station)>, key: Mac) {
    forall e :: e in items ==> Value(key) < Value(e.0)
  }

  ghost predicate Ordered(t: Tree) {
    t.Node? ==>
      Ordered(t.left) && Ordered(t.right) && Below(Items(t.left), t.key) && Above(Items(t.right), t.key)
  }

  /** Every stored height is the real one. */
  predicate Exact(t: Tree) {
    t.Node? ==> Exact(t.left) && Exact(t.right) && t.height == Max(H(t.left), H(t.right)) + 1
  }

  predicate Balanced(t: Tree) {
    t.Node? ==> Balanced(t.left) && Balanced(t.right) && -1 <= Balance(t) <= 1
  }

  ghost predicate AVL(t: Tree) {
    Ordered(t) && Exact(t) && Balanced(t)
  }
}
