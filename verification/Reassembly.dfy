/**
 * Reassembly of fragments: CWProtocolParseFragment, which is called with one received
 * packet at a time and a list of the fragments pending in the session.
 *
 * `Step` is what one call does to the list; the method at the end does it in place on
 * the session's linked list.
 */
module Reassembly {
  import opened Wire
  import opened Wrappers
  import opened TransportHeader
  import opened LinkedList

  datatype Fragment = Fragment(id: nat, offset: nat, last: bool, data: seq<byte>)

  /** A receive buffer, how many of its bytes were received, and the channel they came on */
  datatype Packet = Packet(buf: seq<byte>, readBytes: nat, dataFlag: bool)

  /**
   * What a call returns.  `OutOfMemory` stands for the allocation of a negative size,
   * when fewer bytes were received than the header takes.  The copy loop stays at one offset
   * if the fragment found there is not the last one and has fewer than 8 bytes: `Hangs` if it
   * has none, and `Overruns` if it has some, because each turn then stores them once more,
   * until they no longer fit the buffer.
   */
  datatype Outcome =
    | Complete(bytes: seq<byte>, msgType: Option<nat>)
    | NeedMore
    | InvalidFormat
    | OutOfMemory
    | Hangs
    | Overruns

  /** The call does not return, or writes where it must not. */
  predicate Fatal(o: Outcome) {
    o.Hangs? || o.Overruns?
  }

  datatype StepResult = StepResult(list: seq<Fragment>, outcome: Outcome, dataFlag: bool)

  // ---------------------------------------------------------------- the completeness test

  /** The size the last fragment implies; the scan keeps the one nearest the end of the list. */
  function TotalSize(frags: seq<Fragment>, acc: nat): nat {
    if frags == [] then acc
    else TotalSize(frags[1..], if frags[0].last then frags[0].offset * 8 + |frags[0].data| else acc)
  }

  function CurrentSize(frags: seq<Fragment>): nat {
    if frags == [] then 0 else |frags[0].data| + CurrentSize(frags[1..])
  }

  // ---------------------------------------------------------------- the offset walk

  /** The first fragment in the list at this offset */
  function FindAt(frags: seq<Fragment>, off: nat): (r: Option<Fragment>)
    ensures match r
            case None => forall f <- frags :: f.offset != off
            case Some(f) => f in frags && f.offset == off
  {
    if frags == [] then None
    else if frags[0].offset == off then Some(frags[0])
    else FindAt(frags[1..], off)
  }

  /** Of several fragments at the offset the first one counts. */
  lemma {:induction false} FindsFirst(frags: seq<Fragment>, off: nat, i: nat)
    requires i < |frags| && frags[i].offset == off && forall j :: 0 <= j < i ==> frags[j].offset != off
    ensures FindAt(frags, off) == Some(frags[i])
  {
    if i > 0 { FindsFirst(frags[1..], off, i - 1); }
  }

  /** How many fragments start at or beyond an offset */
  function AtOrBeyond(frags: seq<Fragment>, off: nat): nat {
    if frags == [] then 0
    else (if frags[0].offset >= off then 1 else 0) + AtOrBeyond(frags[1..], off)
  }

  /** How many bytes the fragments at or beyond an offset hold */
  function SizeFrom(frags: seq<Fragment>, off: nat): nat {
    if frags == [] then 0
    else (if frags[0].offset >= off then |frags[0].data| else 0) + SizeFrom(frags[1..], off)
  }

  lemma {:induction false} FewerBeyond(frags: seq<Fragment>, off: nat, next: nat)
    requires off <= next
    ensures AtOrBeyond(frags, next) <= AtOrBeyond(frags, off)
    ensures SizeFrom(frags, next) <= SizeFrom(frags, off)
    ensures off < next && FindAt(frags, off).Some? ==> AtOrBeyond(frags, next) < AtOrBeyond(frags, off)
    ensures off < next && FindAt(frags, off).Some? ==>
              |FindAt(frags, off).value.data| + SizeFrom(frags, next) <= SizeFrom(frags, off)
  {
    if frags != [] { FewerBeyond(frags[1..], off, next); }
  }

  lemma {:induction false} SizeFromZero(frags: seq<Fragment>)
    ensures SizeFrom(frags, 0) == CurrentSize(frags)
  {
    if frags != [] { SizeFromZero(frags[1..]); }
  }

  datatype Walk =
    | Gap
    | Hanging
    | Overrunning
    | Joined(chain: seq<Fragment>)

  /** The fragments the copy loop visits from an offset on */
  function WalkFrom(frags: seq<Fragment>, off: nat): Walk
    decreases AtOrBeyond(frags, off)
  {
    match FindAt(frags, off)
    case None => Gap
    case Some(f) =>
      if f.last then Joined([f])
      else if f.data == [] then Hanging
      else if |f.data| < 8 then Overrunning
      else
        FewerBeyond(frags, off, off + |f.data| / 8);
        After([f], WalkFrom(frags, off + |f.data| / 8))
  }

  /** A walk continued after the fragments already visited */
  function After(visited: seq<Fragment>, w: Walk): Walk {
    match w
    case Joined(chain) => Joined(visited + chain)
    case w => w
  }

  lemma AfterStep(visited: seq<Fragment>, f: Fragment, w: Walk)
    ensures After(visited, After([f], w)) == After(visited + [f], w)
  {
    if w.Joined? { assert visited + ([f] + w.chain) == visited + [f] + w.chain; }
  }

  /** What the copy loop makes of a walk */
  datatype Copy = MissingFragment | Stuck | OutOfBounds | Copied(bytes: seq<byte>)

  function CopyOf(w: Walk): Copy {
    match w
    case Gap => MissingFragment
    case Hanging => Stuck
    case Overrunning => OutOfBounds
    case Joined(chain) => Copied(Flatten(chain))
  }

  function Flatten(chain: seq<Fragment>): seq<byte> {
    if chain == [] then [] else chain[0].data + Flatten(chain[1..])
  }

  lemma {:induction false} FlattenStep(chain: seq<Fragment>, f: Fragment)
    ensures Flatten(chain + [f]) == Flatten(chain) + f.data
  {
    if chain == [] {
      assert chain + [f] == [f];
    } else {
      assert (chain + [f])[1..] == chain[1..] + [f];
      FlattenStep(chain[1..], f);
    }
  }

  // ---------------------------------------------------------------- one call

  /** What happens once the new fragment is in the list */
  function Assemble(list: seq<Fragment>, msgType: Option<nat>, dataFlag: bool): StepResult {
    var total := TotalSize(list, 0);
    if total == 0 || CurrentSize(list) != total then StepResult(list, NeedMore, dataFlag)
    else
      match WalkFrom(list, 0)
      case Gap => StepResult([], InvalidFormat, dataFlag)
      case Hanging => StepResult(list, Hangs, dataFlag)
      case Overrunning => StepResult(list, Overruns, dataFlag)
      case Joined(chain) => StepResult([], Complete(Flatten(chain), msgType), dataFlag)
  }

  /** Two fragments of one message at the same place: CWCompareFragment */
  predicate Same(f: Fragment, g: Fragment) {
    f.id == g.id && f.offset == g.offset
  }

  predicate Known(list: seq<Fragment>, f: Fragment) {
    exists g :: g in list && Same(f, g)
  }

  /** The list the new fragment belongs to: a fragment with another ID discards what is pending. */
  function Pending(list: seq<Fragment>, id: nat): seq<Fragment> {
    if list == [] || list[0].id == id then list else []
  }

  /** A fragment is received; `short` says that the packet ends before its header does. */
  function Accept(list: seq<Fragment>, f: Fragment, short: bool, msgType: Option<nat>, dataFlag: bool): StepResult {
    var pending := Pending(list, f.id);
    if Known(pending, f) then StepResult(pending, NeedMore, dataFlag)
    else if short then StepResult(pending, OutOfMemory, dataFlag)
    else Assemble([f] + pending, msgType, dataFlag)
  }

  /** The bytes of a packet behind its header */
  function Body(p: Packet, off: nat): seq<byte> {
    if off <= p.readBytes then Slice(p.buf, off, p.readBytes - off) else []
  }

  function Step(list: seq<Fragment>, p: Packet): StepResult {
    match ParseHeader(p.buf, 0, p.dataFlag, None)
    case BadHeader(flag) => StepResult(list, InvalidFormat, flag)
    case Header(v, flag, off, msgType) =>
      var short := p.readBytes < off;
      if v.isFragment != 0 then
        Accept(list, Fragment(v.fragmentID, v.fragmentOffset, v.last == 1, Body(p, off)), short, msgType, flag)
      else if short then StepResult(list, OutOfMemory, flag)
      else StepResult(list, Complete(Body(p, off), msgType), flag)
  }

  // ---------------------------------------------------------------- in place

  /** The two scans of the list: the size implied by the last fragment, and the size held so far */
  method Sizes(list: List<Fragment>) returns (totalSize: nat, currentSize: nat)
    requires list.Valid()
    ensures totalSize == TotalSize(list.Contents(), 0) && currentSize == CurrentSize(list.Contents())
  {
    ghost var all := list.Contents();
    var el := list.head;
    ghost var i := 0;
    totalSize := 0;
    while el != null
      invariant i <= |all| && el == list.At(i)
      invariant TotalSize(all[i..], totalSize) == TotalSize(all, 0)
      decreases |all| - i
    {
      assert all[i] == el.data && all[i..][1..] == all[i + 1..];
      if el.data.last {
        totalSize := el.data.offset * 8;
        totalSize := totalSize + |el.data.data|;
      }
      el, i := el.next, i + 1;
    }
    el, i := list.head, 0;
    currentSize := 0;
    while el != null
      invariant i <= |all| && el == list.At(i)
      invariant currentSize + CurrentSize(all[i..]) == CurrentSize(all)
      decreases |all| - i
    {
      assert all[i] == el.data && all[i..][1..] == all[i + 1..];
      currentSize := currentSize + |el.data.data|;
      el, i := el.next, i + 1;
    }
  }

  /** The search of the copy loop for the fragment at an offset */
  method FindInList(list: List<Fragment>, off: nat) returns (found: Option<Fragment>)
    requires list.Valid()
    ensures found == FindAt(list.Contents(), off)
  {
    ghost var all := list.Contents();
    var el := list.head;
    ghost var i := 0;
    while el != null
      invariant i <= |all| && el == list.At(i)
      invariant FindAt(all[i..], off) == FindAt(all, off)
      decreases |all| - i
    {
      assert all[i] == el.data && all[i..][1..] == all[i + 1..];
      if el.data.offset == off {
        return Some(el.data);
      }
      el, i := el.next, i + 1;
    }
    return None;
  }

  /** The copy loop cannot step over this fragment: it is not the last one and ends before the next place. */
  predicate Short(f: Fragment) {
    !f.last && |f.data| < 8
  }

  /** What the walk does at one offset: the whole walk, if it ends here, and where it goes on, if not */
  lemma WalkStep(all: seq<Fragment>, visited: seq<Fragment>, off: nat)
    ensures match FindAt(all, off)
            case None => After(visited, WalkFrom(all, off)) == Gap
            case Some(f) =>
              && Flatten(visited + [f]) == Flatten(visited) + f.data
              && |f.data| <= SizeFrom(all, off)
              && (f.last ==> After(visited, WalkFrom(all, off)) == Joined(visited + [f]))
              && (Short(f) ==>
                    After(visited, WalkFrom(all, off)) == if f.data == [] then Hanging else Overrunning)
              && (!f.last && |f.data| >= 8 ==>
                    var next := off + |f.data| / 8;
                    && After(visited, WalkFrom(all, off)) == After(visited + [f], WalkFrom(all, next))
                    && AtOrBeyond(all, next) < AtOrBeyond(all, off)
                    && |f.data| + SizeFrom(all, next) <= SizeFrom(all, off))
  {
    var found := FindAt(all, off);
    if found.Some? {
      var f := found.value;
      FlattenStep(visited, f);
      FewerBeyond(all, off, off + 1);
      if !f.last && |f.data| >= 8 {
        FewerBeyond(all, off, off + |f.data| / 8);
        AfterStep(visited, f, WalkFrom(all, off + |f.data| / 8));
      }
    }
  }

  /** The fragment at this offset is one that is stored over and over. */
  predicate Repeats(all: seq<Fragment>, off: nat) {
    var found := FindAt(all, off);
    found.Some? && Short(found.value) && found.value.data != []
  }

  /**
   * Unless the loop repeats a short fragment, the copy so far is what was visited, and there is
   * room for all that can still be visited.
   */
  ghost predicate CopyState(all: seq<Fragment>, visited: seq<Fragment>, off: nat, written: seq<byte>, room: nat) {
    && |written| <= room
    && (Repeats(all, off) || (|written| + SizeFrom(all, off) <= room && written == Flatten(visited)))
  }

  ghost predicate Copying(all: seq<Fragment>, visited: seq<Fragment>, off: nat, reassembled: ProtocolMessage)
    reads reassembled, reassembled.msg
  {
    && reassembled.offset <= reassembled.msg.Length
    && CopyState(all, visited, off, reassembled.Written(), reassembled.msg.Length)
  }

  // What a store means for the copy, by the kind of fragment

  lemma LastStored(all: seq<Fragment>, visited: seq<Fragment>, off: nat, f: Fragment, written: seq<byte>, room: nat)
    requires FindAt(all, off) == Some(f) && f.last && CopyState(all, visited, off, written, room)
    ensures CopyOf(After(visited, WalkFrom(all, off))) == Copied(written + f.data)
  {
    WalkStep(all, visited, off);
  }

  lemma EmptyStored(all: seq<Fragment>, visited: seq<Fragment>, off: nat, f: Fragment)
    requires FindAt(all, off) == Some(f) && !f.last && f.data == []
    ensures CopyOf(After(visited, WalkFrom(all, off))) == Stuck
  {
    WalkStep(all, visited, off);
  }

  lemma FullStored(all: seq<Fragment>, visited: seq<Fragment>, off: nat, f: Fragment, written: seq<byte>, room: nat)
    requires FindAt(all, off) == Some(f) && !f.last && |f.data| >= 8 && CopyState(all, visited, off, written, room)
    ensures var next := off + |f.data| / 8;
            && AtOrBeyond(all, next) < AtOrBeyond(all, off)
            && CopyState(all, visited + [f], next, written + f.data, room)
            && After(visited + [f], WalkFrom(all, next)) == After(visited, WalkFrom(all, off))
  {
    WalkStep(all, visited, off);
  }

  /**
   * One turn of the copy loop, after its search.  It ends with a result, goes on at a larger
   * offset, or stays and has less room left; a store that does not fit ends it as out of bounds.
   */
  method CopyElement(el: Option<Fragment>, off: nat, reassembled: ProtocolMessage,
                     ghost all: seq<Fragment>, ghost visited: seq<Fragment>)
    returns (result: Option<Copy>, next: nat, ghost visited': seq<Fragment>)
    requires el == FindAt(all, off) && Copying(all, visited, off, reassembled)
    modifies reassembled`offset, reassembled.msg
    ensures match result
            case Some(copy) => copy == CopyOf(After(visited, WalkFrom(all, off)))
            case None =>
              && Copying(all, visited', next, reassembled)
              && After(visited', WalkFrom(all, next)) == After(visited, WalkFrom(all, off))
              && (AtOrBeyond(all, next) < AtOrBeyond(all, off)
                  || (next == off && reassembled.offset > old(reassembled.offset)))
  {
    WalkStep(all, visited, off);
    if el == None {
      return Some(MissingFragment), off, visited;
    }
    if reassembled.offset + |el.value.data| > reassembled.msg.Length {
      return Some(OutOfBounds), off, visited;
    }
    result, next, visited' := CopyFound(el.value, off, reassembled, all, visited);
  }

  /** The store, and how the loop goes on */
  method CopyFound(f: Fragment, off: nat, reassembled: ProtocolMessage,
                   ghost all: seq<Fragment>, ghost visited: seq<Fragment>)
    returns (result: Option<Copy>, next: nat, ghost visited': seq<Fragment>)
    requires FindAt(all, off) == Some(f) && Copying(all, visited, off, reassembled)
    requires reassembled.offset + |f.data| <= reassembled.msg.Length
    modifies reassembled`offset, reassembled.msg
    ensures match result
            case Some(copy) => copy == CopyOf(After(visited, WalkFrom(all, off)))
            case None =>
              && Copying(all, visited', next, reassembled)
              && After(visited', WalkFrom(all, next)) == After(visited, WalkFrom(all, off))
              && (AtOrBeyond(all, next) < AtOrBeyond(all, off)
                  || (next == off && reassembled.offset > old(reassembled.offset)))
  {
    ghost var written, room := reassembled.Written(), reassembled.msg.Length;
    reassembled.StoreRawBytes(f.data);
    if f.last {
      LastStored(all, visited, off, f, written, room);
      return Some(Copied(reassembled.msg[..reassembled.offset])), off, visited;
    }
    if f.data == [] {
      EmptyStored(all, visited, off, f);
      return Some(Stuck), off, visited;
    }
    if |f.data| < 8 {
      assert Repeats(all, off);
      return None, off, visited;
    }
    FullStored(all, visited, off, f, written, room);
    return None, off + |f.data| / 8, visited + [f];
  }

  /**
   * The copy loop, into a buffer of exactly the total size.  It goes on because ever fewer
   * fragments lie at or beyond the current offset, or, while it repeats a short one, because
   * the room in the buffer shrinks.
   */
  method CopyFragments(list: List<Fragment>, totalSize: nat) returns (copy: Copy)
    requires list.Valid() && CurrentSize(list.Contents()) == totalSize
    ensures copy == CopyOf(WalkFrom(list.Contents(), 0))
  {
    ghost var all := list.Contents();
    ghost var visited: seq<Fragment> := [];
    var reassembled := new ProtocolMessage(totalSize);
    var currentOffset: nat := 0;
    SizeFromZero(all);
    ghost var walk := WalkFrom(all, currentOffset);
    while true
      invariant fresh(reassembled) && fresh(reassembled.msg)
      invariant Copying(all, visited, currentOffset, reassembled)
      invariant walk == After(visited, WalkFrom(all, currentOffset))
      decreases AtOrBeyond(all, currentOffset), reassembled.msg.Length - reassembled.offset
    {
      var el := FindInList(list, currentOffset);
      var result;
      result, currentOffset, visited := CopyElement(el, currentOffset, reassembled, all, visited);
      if result.Some? {
        return result.value;
      }
    }
  }

  method ParseFragment(p: Packet, list: List<Fragment>) returns (outcome: Outcome, dataFlag: bool)
    requires list.Valid()
    modifies list
    ensures list.Valid()
    ensures Step(old(list.Contents()), p) == StepResult(list.Contents(), outcome, dataFlag)
  {
    var msg := new ProtocolMessage.Received(p.buf);
    var ok, values, flag, msgType := ParseTransportHeader(msg, p.dataFlag, None);
    dataFlag := flag;
    if !ok {
      return InvalidFormat, dataFlag;
    }
    if values.isFragment == 0 {
      if p.readBytes < msg.offset {
        return OutOfMemory, dataFlag;
      }
      return Complete(Slice(p.buf, msg.offset, p.readBytes - msg.offset), msgType), dataFlag;
    }
    var short := p.readBytes < msg.offset;
    var frag := Fragment(values.fragmentID, values.fragmentOffset, values.last == 1, Body(p, msg.offset));
    outcome := AcceptFragment(list, frag, short, msgType, dataFlag);
  }

  method AcceptFragment(list: List<Fragment>, frag: Fragment, short: bool, msgType: Option<nat>, dataFlag: bool)
    returns (outcome: Outcome)
    requires list.Valid()
    modifies list
    ensures list.Valid()
    ensures Accept(old(list.Contents()), frag, short, msgType, dataFlag)
         == StepResult(list.Contents(), outcome, dataFlag)
  {
    ghost var before := list.Contents();
    if list.head == null || list.head.data.id == frag.id {
      assert Pending(before, frag.id) == before;
      var aux := list.Search(g => Same(frag, g));
      if aux != None {
        return NeedMore;
      }
    } else {
      list.DeleteList();
    }
    assert list.Contents() == Pending(before, frag.id) && !Known(list.Contents(), frag);
    if short {
      return OutOfMemory;
    }
    list.AddElement(frag);
    outcome := AssembleIfComplete(list, msgType, dataFlag);
  }

  method AssembleIfComplete(list: List<Fragment>, msgType: Option<nat>, ghost dataFlag: bool)
    returns (outcome: Outcome)
    requires list.Valid()
    modifies list
    ensures list.Valid()
    ensures Assemble(old(list.Contents()), msgType, dataFlag) == StepResult(list.Contents(), outcome, dataFlag)
  {
    var totalSize, currentSize := Sizes(list);
    if totalSize == 0 || currentSize != totalSize {
      return NeedMore;
    }
    var copy := CopyFragments(list, totalSize);
    match copy {
      case MissingFragment =>
        list.DeleteList();
        return InvalidFormat;
      case Stuck =>
        return Hangs;
      case OutOfBounds =>
        return Overruns;
      case Copied(bytes) =>
        list.DeleteList();
        return Complete(bytes, msgType);
    }
  }
}
