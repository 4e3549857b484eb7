/**
 * Fragments arriving in any order and with repetitions.  The fragments of a message, in
 * message order, are a contiguous chain of parts; what arrives is a list of indices into it.
 */
module Arrivals {
  import opened Wire
  import opened Wrappers
  import opened TransportHeader
  import opened Reassembly
  import opened ReassemblyLaws

  /** A fragment behind a well-formed header, the packet kind and the channel flag */
  datatype Arrival = Arrival(fragment: Fragment, msgType: Option<nat>, dataFlag: bool)

  function RunArrivals(list: seq<Fragment>, arrivals: seq<Arrival>): RunResult
    decreases |arrivals|
  {
    if arrivals == [] then RunResult(list, [])
    else
      var a := arrivals[0];
      var s := Accept(list, a.fragment, false, a.msgType, a.dataFlag);
      if Fatal(s.outcome) then RunResult(s.list, [s.outcome])
      else
        Then(s.outcome, RunArrivals(s.list, arrivals[1..]))
  }

  /** A run with one more outcome in front */
  function Then(first: Outcome, rest: RunResult): RunResult {
    RunResult(rest.list, [first] + rest.outcomes)
  }

  /** The packet carries this fragment and nothing is wrong with its header. */
  predicate Brings(p: Packet, a: Arrival) {
    match ParseHeader(p.buf, 0, p.dataFlag, None)
    case BadHeader(_) => false
    case Header(v, flag, off, msgType) =>
      && v.isFragment != 0 && off <= p.readBytes
      && a == Arrival(Fragment(v.fragmentID, v.fragmentOffset, v.last == 1, Body(p, off)), msgType, flag)
  }

  lemma {:induction false} StepBrings(list: seq<Fragment>, p: Packet, a: Arrival)
    requires Brings(p, a)
    ensures Step(list, p) == Accept(list, a.fragment, false, a.msgType, a.dataFlag)
    ensures FragmentOf(p) == Some(a.fragment.id)
  {}

  lemma {:induction false} RunBrings(list: seq<Fragment>, packets: seq<Packet>, arrivals: seq<Arrival>)
    requires |packets| == |arrivals|
    requires forall j :: 0 <= j < |packets| ==> Brings(packets[j], arrivals[j])
    ensures Run(list, packets) == RunArrivals(list, arrivals)
    decreases |packets|
  {
    if packets != [] {
      StepBrings(list, packets[0], arrivals[0]);
      RunBrings(Step(list, packets[0]).list, packets[1..], arrivals[1..]);
    }
  }

  // ---------------------------------------------------------------- the parts of one message

  ghost predicate Parts(parts: seq<Fragment>) {
    && Contiguous(parts, 0)
    && (forall i :: 0 <= i < |parts| ==>
          parts[i].id == parts[0].id && parts[i].data != [] && (parts[i].last <==> i == |parts| - 1))
    && (forall i :: 0 <= i < |parts| - 1 ==> |parts[i].data| % 8 == 0)
  }

  /** Later parts lie behind earlier ones. */
  lemma {:induction false} PartsFollow(chain: seq<Fragment>, off: nat, i: nat, j: nat)
    requires Contiguous(chain, off) && i < j < |chain|
    ensures EndOf(chain[i]) <= 8 * chain[j].offset
    decreases |chain|
  {
    var rest, next := chain[1..], off + |chain[0].data| / 8;
    if i == 0 {
      ChainSpan(rest, next);
      assert rest[j - 1] in rest;
    } else {
      PartsFollow(rest, next, i - 1, j - 1);
    }
  }

  lemma {:induction false} PartsDiffer(parts: seq<Fragment>, i: nat, j: nat)
    requires Parts(parts) && i < |parts| && j < |parts| && i != j
    ensures parts[i].offset != parts[j].offset
  {
    if i < j { PartsFollow(parts, 0, i, j); } else { PartsFollow(parts, 0, j, i); }
  }

  /** Which parts have arrived: distinct indices, the latest one first */
  ghost predicate Arrived(parts: seq<Fragment>, indices: seq<nat>) {
    && (forall j :: 0 <= j < |indices| ==> indices[j] < |parts|)
    && (forall i, j :: 0 <= i < j < |indices| ==> indices[i] != indices[j])
  }

  function Pick(parts: seq<Fragment>, indices: seq<nat>): (l: seq<Fragment>)
    requires forall j :: 0 <= j < |indices| ==> indices[j] < |parts|
    ensures |l| == |indices| && forall j :: 0 <= j < |l| ==> l[j] == parts[indices[j]]
  {
    if indices == [] then [] else [parts[indices[0]]] + Pick(parts, indices[1..])
  }

  lemma {:induction false} OneMorePicked(parts: seq<Fragment>, indices: seq<nat>, i: nat)
    requires (forall j :: 0 <= j < |indices| ==> indices[j] < |parts|) && i < |parts|
    ensures Pick(parts, [i] + indices) == [parts[i]] + Pick(parts, indices)
    ensures CurrentSize(Pick(parts, [i] + indices)) == |parts[i].data| + CurrentSize(Pick(parts, indices))
  {
    assert ([i] + indices)[1..] == indices;
    assert ([parts[i]] + Pick(parts, indices))[1..] == Pick(parts, indices);
  }

  /** Those of n parts that have not arrived */
  ghost function Missing(n: nat, indices: seq<nat>): set<nat> {
    set i: nat | i < n && i !in indices
  }

  lemma {:induction false} PickedIsOneMessage(parts: seq<Fragment>, indices: seq<nat>)
    requires Parts(parts) && Arrived(parts, indices)
    ensures OneMessage(Pick(parts, indices))
  {
    forall i, j | 0 <= i < j < |indices|
      ensures parts[indices[i]].offset != parts[indices[j]].offset
    {
      PartsDiffer(parts, indices[i], indices[j]);
    }
  }

  lemma {:induction false} PickedConforms(parts: seq<Fragment>, indices: seq<nat>, k: nat)
    requires Parts(parts) && Arrived(parts, indices)
    requires k < |indices| && indices[k] == |parts| - 1
    ensures Conforming(Pick(parts, indices), k)
    ensures EndOf(Pick(parts, indices)[k]) == |Flatten(parts)|
  {
    PickedIsOneMessage(parts, indices);
    ChainSpan(parts, 0);
    var list := Pick(parts, indices);
    forall i | 0 <= i < |list| ensures list[i].last <==> i == k {
      assert i < k ==> indices[i] != indices[k];
      assert k < i ==> indices[k] != indices[i];
    }
    forall f | f in list ensures !f.last ==> |f.data| > 0 && |f.data| % 8 == 0 {
      var j :| 0 <= j < |list| && list[j] == f;
    }
  }

  lemma {:induction false} PositionOf(indices: seq<nat>, parts: seq<Fragment>, i: nat) returns (j: nat)
    requires i < |parts| && i !in Missing(|parts|, indices)
    ensures j < |indices| && indices[j] == i
  {
    j :| 0 <= j < |indices| && indices[j] == i;
  }

  /** All parts together tile the message. */
  lemma {:induction false} AllPartsTile(parts: seq<Fragment>, indices: seq<nat>)
    requires Parts(parts) && Arrived(parts, indices) && Missing(|parts|, indices) == {}
    ensures Tiles(Pick(parts, indices), |Flatten(parts)|)
  {
    var list := Pick(parts, indices);
    ChainSpan(parts, 0);
    forall p: nat | p < |Flatten(parts)| ensures Covered(list, p) {
      ChainCovers(parts, 0, p);
      var f :| f in parts && Covers(f, p);
      var i :| 0 <= i < |parts| && parts[i] == f;
      var j := PositionOf(indices, parts, i);
      assert list[j] in list;
    }
    forall i, j, p: nat | 0 <= i < j < |list| ensures !(Covers(list[i], p) && Covers(list[j], p)) {
      if Covers(list[i], p) && Covers(list[j], p) {
        assert list[i] in parts && list[j] in parts;
        ChainDisjoint(parts, 0, list[i], list[j], p);
        PartsDiffer(parts, indices[i], indices[j]);
      }
    }
    forall f | f in list ensures EndOf(f) <= |Flatten(parts)| {
      var j :| 0 <= j < |list| && list[j] == f;
      assert f in parts;
    }
  }

  /** Bytes that hold every part at its place are the message. */
  lemma {:induction false} PartsMakeMessage(parts: seq<Fragment>, bytes: seq<byte>)
    requires Contiguous(parts, 0) && |bytes| == |Flatten(parts)|
    requires forall f <- parts :: Holds(bytes, 8 * f.offset, f.data)
    ensures bytes == Flatten(parts)
  {
    var whole := Flatten(parts);
    ChainSpan(parts, 0);
    forall p: nat | p < |bytes| ensures bytes[p] == whole[p] {
      ChainCovers(parts, 0, p);
      var f :| f in parts && Covers(f, p);
      ChainBytes(parts, 0, f);
      HeldByte(bytes, 8 * f.offset, f.data, p);
      HeldByte(whole, 8 * f.offset, f.data, p);
    }
  }

  lemma {:induction false} HeldByte(buf: seq<byte>, at: nat, part: seq<byte>, p: nat)
    requires Holds(buf, at, part) && at <= p < at + |part|
    ensures buf[p] == part[p - at]
  {
    assert buf[at..at + |part|][p - at] == buf[p];
  }

  /** Distinct parts hold as many bytes as the message only if none is missing. */
  lemma {:induction false} SizeArrived(parts: seq<Fragment>, indices: seq<nat>)
    requires Parts(parts) && Arrived(parts, indices)
    ensures CurrentSize(Pick(parts, indices)) <= |Flatten(parts)|
    ensures CurrentSize(Pick(parts, indices)) == |Flatten(parts)| <==> Missing(|parts|, indices) == {}
    decreases Missing(|parts|, indices)
  {
    if Missing(|parts|, indices) == {} {
      var k := PositionOf(indices, parts, |parts| - 1);
      PickedConforms(parts, indices, k);
      AllPartsTile(parts, indices);
      TestsDecideTiling(Pick(parts, indices), k);
    } else {
      var j :| j in Missing(|parts|, indices);
      var more := [j] + indices;
      assert j !in Missing(|parts|, more);
      assert Missing(|parts|, more) < Missing(|parts|, indices);
      SizeArrived(parts, more);
      OneMorePicked(parts, indices, j);
    }
  }

  /** A completed message is returned with the kind and the flag of its last packet. */
  lemma {:induction false} CompletedWith(list: seq<Fragment>, msgType: Option<nat>, dataFlag: bool)
    requires Assemble(list, msgType, dataFlag).outcome.Complete?
    ensures var r := Assemble(list, msgType, dataFlag);
            r == StepResult(r.list, Complete(r.outcome.bytes, msgType), dataFlag)
  {
  }

  lemma {:induction false} PartsInList(list: seq<Fragment>, parts: seq<Fragment>, bytes: seq<byte>)
    requires Contiguous(parts, 0) && |bytes| == |Flatten(parts)|
    requires forall f <- parts :: f in list
    requires forall f <- list :: EndOf(f) <= |bytes| ==> Holds(bytes, 8 * f.offset, f.data)
    ensures bytes == Flatten(parts)
  {
    ChainSpan(parts, 0);
    PartsMakeMessage(parts, bytes);
  }

  /** A list that tiles a message made of these parts gives the message. */
  lemma {:induction false} AssembleTiling(
    list: seq<Fragment>, k: nat, parts: seq<Fragment>, msgType: Option<nat>, dataFlag: bool)
    requires Conforming(list, k) && Tiles(list, EndOf(list[k]))
    requires Contiguous(parts, 0) && |Flatten(parts)| == EndOf(list[k]) > 0
    requires forall f <- parts :: f in list
    ensures Assemble(list, msgType, dataFlag) == StepResult([], Complete(Flatten(parts), msgType), dataFlag)
  {
    ReassembledIffTiles(list, k, msgType, dataFlag);
    CompletedWith(list, msgType, dataFlag);
    PartsInList(list, parts, Assemble(list, msgType, dataFlag).outcome.bytes);
  }

  lemma {:induction false} AllPicked(parts: seq<Fragment>, indices: seq<nat>, f: Fragment)
    requires Arrived(parts, indices) && Missing(|parts|, indices) == {} && f in parts
    ensures f in Pick(parts, indices)
  {
    var i :| 0 <= i < |parts| && parts[i] == f;
    var j := PositionOf(indices, parts, i);
    assert Pick(parts, indices)[j] == f;
  }

  lemma {:induction false} MessageIsNotEmpty(parts: seq<Fragment>)
    requires Parts(parts)
    ensures |Flatten(parts)| > 0
  {
    assert Flatten(parts) == parts[0].data + Flatten(parts[1..]);
  }

  /** With every part there the message comes out. */
  lemma {:induction false} AssembleAll(parts: seq<Fragment>, indices: seq<nat>, msgType: Option<nat>, dataFlag: bool)
    requires Parts(parts) && Arrived(parts, indices) && Missing(|parts|, indices) == {}
    ensures Assemble(Pick(parts, indices), msgType, dataFlag)
         == StepResult([], Complete(Flatten(parts), msgType), dataFlag)
  {
    var k := PositionOf(indices, parts, |parts| - 1);
    PickedConforms(parts, indices, k);
    AllPartsTile(parts, indices);
    MessageIsNotEmpty(parts);
    forall f | f in parts ensures f in Pick(parts, indices) { AllPicked(parts, indices, f); }
    AssembleTiling(Pick(parts, indices), k, parts, msgType, dataFlag);
  }

  /** With a part missing more is needed. */
  lemma {:induction false} AssembleSome(parts: seq<Fragment>, indices: seq<nat>, msgType: Option<nat>, dataFlag: bool)
    requires Parts(parts) && Arrived(parts, indices) && Missing(|parts|, indices) != {}
    ensures Assemble(Pick(parts, indices), msgType, dataFlag)
         == StepResult(Pick(parts, indices), NeedMore, dataFlag)
  {
    var list := Pick(parts, indices);
    SizeArrived(parts, indices);
    if |parts| - 1 !in Missing(|parts|, indices) {
      var k := PositionOf(indices, parts, |parts| - 1);
      PickedConforms(parts, indices, k);
      TotalIsEndOfLast(list, 0, k);
    } else {
      forall f | f in list ensures !f.last {
        var j :| 0 <= j < |list| && list[j] == f;
        assert indices[j] in indices;
      }
      TotalWithoutLast(list, 0);
    }
  }

  /** The parts that have arrived after part i did */
  function AlsoArrived(indices: seq<nat>, i: nat): seq<nat> {
    if i in indices then indices else [i] + indices
  }

  /**
   * The fragment f comes in for part i.  One that is there already may come with other contents:
   * only its identifier and its offset are looked at.
   */
  ghost predicate ComesFor(parts: seq<Fragment>, indices: seq<nat>, i: nat, f: Fragment)
    requires i < |parts|
  {
    f == parts[i] || (i in indices && Same(f, parts[i]))
  }

  lemma {:induction false} KnownIffArrived(parts: seq<Fragment>, indices: seq<nat>, i: nat, f: Fragment)
    requires Parts(parts) && Arrived(parts, indices) && i < |parts| && ComesFor(parts, indices, i, f)
    ensures Pending(Pick(parts, indices), f.id) == Pick(parts, indices)
    ensures Known(Pick(parts, indices), f) <==> i in indices
  {
    var list := Pick(parts, indices);
    if i in indices {
      var j := PositionOf(indices, parts, i);
      assert list[j] in list && Same(f, list[j]);
    } else {
      forall g | g in list ensures !Same(f, g) {
        var j :| 0 <= j < |list| && list[j] == g;
        assert indices[j] in indices;
        PartsDiffer(parts, i, indices[j]);
      }
    }
  }

  /** A repeated part changes nothing; a new one goes to the head of the list. */
  lemma {:induction false} AcceptIsAssemble(
    parts: seq<Fragment>, indices: seq<nat>, i: nat, f: Fragment, msgType: Option<nat>, dataFlag: bool)
    requires Parts(parts) && Arrived(parts, indices) && i < |parts| && ComesFor(parts, indices, i, f)
    ensures Arrived(parts, AlsoArrived(indices, i))
    ensures Accept(Pick(parts, indices), f, false, msgType, dataFlag)
         == if i in indices then StepResult(Pick(parts, indices), NeedMore, dataFlag)
            else Assemble(Pick(parts, [i] + indices), msgType, dataFlag)
  {
    KnownIffArrived(parts, indices, i, f);
    OneMorePicked(parts, indices, i);
  }

  lemma {:induction false} AssembleArrived(
    parts: seq<Fragment>, indices: seq<nat>, msgType: Option<nat>, dataFlag: bool)
    requires Parts(parts) && Arrived(parts, indices)
    ensures Assemble(Pick(parts, indices), msgType, dataFlag)
         == if Missing(|parts|, indices) == {} then StepResult([], Complete(Flatten(parts), msgType), dataFlag)
            else StepResult(Pick(parts, indices), NeedMore, dataFlag)
  {
    if Missing(|parts|, indices) == {} {
      AssembleAll(parts, indices, msgType, dataFlag);
    } else {
      AssembleSome(parts, indices, msgType, dataFlag);
    }
  }

  /** One more part, new or repeated */
  lemma {:induction false} AcceptPart(
    parts: seq<Fragment>, indices: seq<nat>, i: nat, f: Fragment, msgType: Option<nat>, dataFlag: bool)
    requires Parts(parts) && Arrived(parts, indices) && i < |parts| && ComesFor(parts, indices, i, f)
    requires Missing(|parts|, indices) != {}
    ensures Arrived(parts, AlsoArrived(indices, i))
    ensures Accept(Pick(parts, indices), f, false, msgType, dataFlag)
         == if Missing(|parts|, AlsoArrived(indices, i)) == {}
            then StepResult([], Complete(Flatten(parts), msgType), dataFlag)
            else StepResult(Pick(parts, AlsoArrived(indices, i)), NeedMore, dataFlag)
  {
    AcceptIsAssemble(parts, indices, i, f, msgType, dataFlag);
    if i !in indices {
      AssembleArrived(parts, [i] + indices, msgType, dataFlag);
    }
  }

  lemma {:induction false} RunPart(parts: seq<Fragment>, indices: seq<nat>, i: nat, arrivals: seq<Arrival>)
    requires Parts(parts) && Arrived(parts, indices) && i < |parts| && Missing(|parts|, indices) != {}
    requires arrivals != [] && ComesFor(parts, indices, i, arrivals[0].fragment)
    ensures Arrived(parts, AlsoArrived(indices, i))
    ensures RunArrivals(Pick(parts, indices), arrivals)
         == if Missing(|parts|, AlsoArrived(indices, i)) == {}
            then Then(Complete(Flatten(parts), arrivals[0].msgType), RunArrivals([], arrivals[1..]))
            else Then(NeedMore, RunArrivals(Pick(parts, AlsoArrived(indices, i)), arrivals[1..]))
  {
    AcceptPart(parts, indices, i, arrivals[0].fragment, arrivals[0].msgType, arrivals[0].dataFlag);
  }

  // ---------------------------------------------------------------- delivery

  /** Arrival j comes in for part order[j], when the parts with these indices are there. */
  ghost predicate InOrder(parts: seq<Fragment>, indices: seq<nat>, order: seq<nat>, arrivals: seq<Arrival>) {
    && |arrivals| == |order|
    && (forall j :: 0 <= j < |order| ==>
          order[j] < |parts| && ComesFor(parts, indices, order[j], arrivals[j].fragment))
  }

  lemma {:induction false} InOrderAfter(
    parts: seq<Fragment>, indices: seq<nat>, order: seq<nat>, arrivals: seq<Arrival>)
    requires InOrder(parts, indices, order, arrivals) && order != []
    ensures InOrder(parts, AlsoArrived(indices, order[0]), order[1..], arrivals[1..])
  {
  }

  function Waiting(n: nat): (w: seq<Outcome>)
    ensures |w| == n && forall o <- w :: o == NeedMore
  {
    if n == 0 then [] else [NeedMore] + Waiting(n - 1)
  }

  function Delivered(parts: seq<Fragment>, n: nat, last: Arrival): RunResult
    requires n > 0
  {
    RunResult([], Waiting(n - 1) + [Complete(Flatten(parts), last.msgType)])
  }

  /** The first of the arrivals to come counted among those that were */
  lemma {:induction false} MissingAfter(parts: seq<Fragment>, indices: seq<nat>, order: seq<nat>)
    requires order != []
    ensures Missing(|parts|, indices + order) <= Missing(|parts|, indices)
    ensures Missing(|parts|, AlsoArrived(indices, order[0]) + order[1..]) == Missing(|parts|, indices + order)
  {
    var i, rest := order[0], order[1..];
    assert order == [i] + rest;
    forall x: nat ensures x in AlsoArrived(indices, i) + rest <==> x in indices + order {
      assert x in order <==> x == i || x in rest;
    }
  }

  lemma {:induction false} LastArrival(parts: seq<Fragment>, indices: seq<nat>, i: nat, arrivals: seq<Arrival>)
    requires Parts(parts) && Arrived(parts, indices) && i < |parts|
    requires |arrivals| == 1 && ComesFor(parts, indices, i, arrivals[0].fragment)
    requires Missing(|parts|, indices) != {} && Missing(|parts|, AlsoArrived(indices, i)) == {}
    ensures RunArrivals(Pick(parts, indices), arrivals) == Delivered(parts, 1, arrivals[0])
  {
    RunPart(parts, indices, i, arrivals);
    assert arrivals[1..] == [];
  }

  lemma {:induction false} EarlierArrival(
    parts: seq<Fragment>, indices: seq<nat>, i: nat, arrivals: seq<Arrival>, n: nat, last: Arrival)
    requires Parts(parts) && Arrived(parts, indices) && i < |parts|
    requires arrivals != [] && ComesFor(parts, indices, i, arrivals[0].fragment)
    requires Missing(|parts|, indices) != {} && Missing(|parts|, AlsoArrived(indices, i)) != {}
    requires Arrived(parts, AlsoArrived(indices, i)) && n > 0
    requires RunArrivals(Pick(parts, AlsoArrived(indices, i)), arrivals[1..]) == Delivered(parts, n, last)
    ensures RunArrivals(Pick(parts, indices), arrivals) == Delivered(parts, n + 1, last)
  {
    RunPart(parts, indices, i, arrivals);
    WaitingLonger(n, Complete(Flatten(parts), last.msgType));
  }

  lemma {:induction false} WaitingLonger(n: nat, last: Outcome)
    requires n > 0
    ensures [NeedMore] + (Waiting(n - 1) + [last]) == Waiting(n) + [last]
  {
  }

  /**
   * From any set of parts that have arrived: if all are there exactly when the last arrival has
   * been taken in, all calls but the last ask for more and the last one returns the message.
   */
  lemma {:induction false} DeliveryContinues(
    parts: seq<Fragment>, indices: seq<nat>, order: seq<nat>, arrivals: seq<Arrival>)
    requires Parts(parts) && Arrived(parts, indices) && InOrder(parts, indices, order, arrivals) && order != []
    requires Missing(|parts|, indices + order) == {}
    requires Missing(|parts|, indices + order[..|order| - 1]) != {}
    ensures RunArrivals(Pick(parts, indices), arrivals) == Delivered(parts, |order|, arrivals[|order| - 1])
    decreases |order|
  {
    var i, rest := order[0], order[1..];
    if rest == [] {
      OnlyArrival(parts, indices, order);
      LastArrival(parts, indices, i, arrivals);
    } else {
      FirstArrival(parts, indices, order);
      InOrderAfter(parts, indices, order, arrivals);
      NowArrived(parts, indices, i);
      DeliveryContinues(parts, AlsoArrived(indices, i), rest, arrivals[1..]);
      EarlierArrival(parts, indices, i, arrivals, |rest|, arrivals[|order| - 1]);
    }
  }

  lemma {:induction false} OnlyArrival(parts: seq<Fragment>, indices: seq<nat>, order: seq<nat>)
    requires |order| == 1
    requires Missing(|parts|, indices + order) == {} && Missing(|parts|, indices + order[..|order| - 1]) != {}
    ensures Missing(|parts|, indices) != {} && Missing(|parts|, AlsoArrived(indices, order[0])) == {}
  {
    MissingAfter(parts, indices, order);
    assert AlsoArrived(indices, order[0]) + order[1..] == AlsoArrived(indices, order[0]);
    assert indices + order[..|order| - 1] == indices;
  }

  lemma {:induction false} FirstArrival(parts: seq<Fragment>, indices: seq<nat>, order: seq<nat>)
    requires |order| > 1
    requires Missing(|parts|, indices + order) == {} && Missing(|parts|, indices + order[..|order| - 1]) != {}
    ensures var also, rest := AlsoArrived(indices, order[0]), order[1..];
            && Missing(|parts|, indices) != {} && Missing(|parts|, also) != {}
            && Missing(|parts|, also + rest) == {} && Missing(|parts|, also + rest[..|rest| - 1]) != {}
  {
    var also, rest, front := AlsoArrived(indices, order[0]), order[1..], order[..|order| - 1];
    MissingAfter(parts, indices, order);
    MissingAfter(parts, indices, front);
    assert front[0] == order[0] && front[1..] == rest[..|rest| - 1];
    StillMissing(parts, also, front[1..]);
    StillMissing(parts, indices, front);
  }

  lemma {:induction false} StillMissing(parts: seq<Fragment>, indices: seq<nat>, more: seq<nat>)
    requires Missing(|parts|, indices + more) != {}
    ensures Missing(|parts|, indices) != {}
  {
    var x :| x in Missing(|parts|, indices + more);
    assert x in Missing(|parts|, indices);
  }

  lemma {:induction false} NowArrived(parts: seq<Fragment>, indices: seq<nat>, i: nat)
    requires Arrived(parts, indices) && i < |parts|
    ensures Arrived(parts, AlsoArrived(indices, i))
  {
  }

  /** From an empty list */
  lemma {:induction false} DeliveryFromNothing(
    parts: seq<Fragment>, order: seq<nat>, arrivals: seq<Arrival>)
    requires Parts(parts) && InOrder(parts, [], order, arrivals) && order != []
    requires Missing(|parts|, order) == {} && Missing(|parts|, order[..|order| - 1]) != {}
    ensures RunArrivals([], arrivals) == Delivered(parts, |order|, arrivals[|order| - 1])
  {
    assert [] + order == order && [] + order[..|order| - 1] == order[..|order| - 1];
    assert Pick(parts, []) == [];
    DeliveryContinues(parts, [], order, arrivals);
  }
}
