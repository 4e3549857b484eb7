/**
 * Cutting and reassembling together: a message that was split into fragments comes out
 * again, whatever the order and the repetitions in which its datagrams arrive, exactly when
 * its last fragment starts where the 13-bit offset can still point.
 */
module Delivery {
  import opened Wire
  import opened Wrappers
  import opened TransportHeader
  import opened Fragmentation
  import opened Reassembly
  import opened ReassemblyLaws
  import opened Arrivals

  /** A message on its way: its bytes, how it is cut, and what its headers say */
  datatype Split = Split(msg: seq<byte>, chunk: nat, id: nat, payloadType: int, frameType: int, mac: Mac) {
    ghost predicate Valid() {
      && chunk > 0 && chunk % 8 == 0 && |msg| > 0
      && Count() > 1
      && id <= MAX_FRAGMENT_ID
      && |msg| < 0x1_0000_0000
    }

    function Count(): nat {
      FragmentCount(|msg|, chunk)
    }

    /** The last fragment starts below byte 65536. */
    predicate OffsetsFit() {
      Count() > 0 && Start(chunk, Count() - 1) < OFFSET_LIMIT
    }

    ghost function Datagram(i: nat): seq<byte>
      requires Valid() && i < Count()
    {
      FragmentDatagram(msg, chunk, Count(), i, id, payloadType, frameType, mac)
    }

    /** What the receiver makes of fragment i; the offset field has 13 bits */
    ghost function Received(i: nat): Fragment
      requires Valid() && i < Count()
    {
      Fragment(id, (Start(chunk, i) / 8) % 8192, i == Count() - 1, Payload(msg, chunk, Count(), i))
    }

    /** What the receiver makes of fragment i and all later ones */
    ghost function ReceivedFrom(i: nat): (l: seq<Fragment>)
      requires Valid() && i <= Count()
      ensures |l| == Count() - i
      ensures forall j :: 0 <= j < |l| ==> l[j] == Received(i + j)
      decreases Count() - i
    {
      if i == Count() then [] else [Received(i)] + ReceivedFrom(i + 1)
    }

    /** The packet kind a completed message gets */
    function Kind(dataFlag: bool): Option<nat> {
      if !dataFlag then None
      else if frameType == 1 then Some(IEEE_802_11_FRAME) else Some(IEEE_802_3_FRAME)
    }

    ghost function ArrivalOf(i: nat, dataFlag: bool): Arrival
      requires Valid() && i < Count()
    {
      Arrival(Received(i), Kind(dataFlag), dataFlag)
    }
  }

  /** The receive buffer starts with the datagram, and all of it was received. */
  ghost predicate Carries(p: Packet, datagram: seq<byte>) {
    p.readBytes == |datagram| && Holds(p.buf, 0, datagram)
  }

  // ---------------------------------------------------------------- one datagram

  /** The part of a received datagram behind its header is the payload. */
  lemma BodyOfDatagram(p: Packet, header: seq<byte>, payload: seq<byte>)
    requires Carries(p, header + payload)
    ensures Holds(p.buf, 0, header) && Body(p, |header|) == payload
  {
    HoldsParts(p.buf, 0, header, payload);
    SliceHeld(p.buf, |header|, payload);
  }

  lemma DatagramBrings(s: Split, i: nat, p: Packet)
    requires s.Valid() && i < s.Count() && Carries(p, s.Datagram(i))
    ensures Brings(p, s.ArrivalOf(i, p.dataFlag))
  {
    var v := FragmentValues(s.chunk, s.Count(), i, s.id, s.payloadType, s.frameType);
    BodyOfDatagram(p, HeaderBytes(v, s.mac), Payload(s.msg, s.chunk, s.Count(), i));
    HeaderRoundTrip(p.buf, 0, v, s.mac, p.dataFlag, None);
  }

  /** A packet that is the header of an unfragmented message and the message */
  lemma StepWhole(
    list: seq<Fragment>, p: Packet, header: seq<byte>, msg: seq<byte>,
    v: ParsedValues, flag: bool, kind: Option<nat>)
    requires p.readBytes == |header| + |msg| && Body(p, |header|) == msg
    requires ParseHeader(p.buf, 0, p.dataFlag, None) == Header(v, flag, |header|, kind) && v.isFragment == 0
    ensures Step(list, p) == StepResult(list, Complete(msg, kind), flag)
  {}

  /** An unfragmented message arrives at once and leaves the pending list alone. */
  lemma WholeMessageArrives(
    msg: seq<byte>, payloadType: int, frameType: int, mac: Mac, p: Packet, list: seq<Fragment>)
    requires Carries(p, WholeDatagram(msg, payloadType, frameType, mac))
    ensures var r := Step(list, p);
            r.list == list && r.outcome.Complete? && r.outcome.bytes == msg && r.dataFlag == p.dataFlag
  {
    var v := HeaderValues(payloadType, frameType, 0, 0, 0, 0);
    var header := HeaderBytes(v, mac);
    BodyOfDatagram(p, header, msg);
    HeaderRoundTrip(p.buf, 0, v, mac, p.dataFlag, None);
    var h := ParseHeader(p.buf, 0, p.dataFlag, None);
    StepWhole(list, p, header, msg, h.values, p.dataFlag, h.msgType);
  }

  // ---------------------------------------------------------------- when offsets fit

  lemma OffsetsAreStarts(s: Split, i: nat)
    requires s.Valid() && s.OffsetsFit() && i < s.Count()
    ensures 8 * s.Received(i).offset == Start(s.chunk, i)
  {
    if i < s.Count() - 1 { StartsGrow(s.chunk, i, s.Count() - 1); }
    var start := Start(s.chunk, i);
    assert start % 8 == 0 && start < OFFSET_LIMIT;
  }

  /** A full fragment ends where the next one starts. */
  ghost predicate Follows(f: Fragment, next: Fragment) {
    !f.last && |f.data| % 8 == 0 && next.offset == f.offset + |f.data| / 8
  }

  lemma UnitsAdd(start: nat, chunk: nat, units: nat, nextUnits: nat)
    requires 8 * units == start && 8 * nextUnits == start + chunk
    ensures chunk % 8 == 0 && nextUnits == units + chunk / 8
  {}

  lemma SplitAt<T>(s: seq<T>, i: nat, j: nat)
    requires i <= j <= |s|
    ensures s[i..] == s[i..j] + s[j..]
  {}

  lemma NextReceived(s: Split, i: nat)
    requires s.Valid() && s.OffsetsFit() && i < s.Count() - 1
    ensures Follows(s.Received(i), s.Received(i + 1))
    ensures s.msg[Start(s.chunk, i)..] == s.Received(i).data + s.msg[Start(s.chunk, i + 1)..]
  {
    var start := Start(s.chunk, i);
    OffsetsAreStarts(s, i);
    OffsetsAreStarts(s, i + 1);
    assert Start(s.chunk, i + 1) == start + s.chunk;
    UnitsAdd(start, s.chunk, s.Received(i).offset, s.Received(i + 1).offset);
    SplitAt(s.msg, start, start + s.chunk);
  }

  lemma PutInFront(f: Fragment, next: Fragment, chain: seq<Fragment>)
    requires Follows(f, next) && Contiguous(chain, next.offset)
    ensures Contiguous([f] + chain, f.offset)
    ensures Flatten([f] + chain) == f.data + Flatten(chain)
  {
    assert ([f] + chain)[1..] == chain;
  }

  /** Received fragments follow each other and hold the rest of the message. */
  lemma {:induction false} ReceivedFollow(s: Split, i: nat)
    requires s.Valid() && s.OffsetsFit() && i < s.Count()
    ensures Contiguous(s.ReceivedFrom(i), s.Received(i).offset)
    ensures Flatten(s.ReceivedFrom(i)) == s.msg[Start(s.chunk, i)..]
    decreases s.Count() - i
  {
    var f := s.Received(i);
    if i == s.Count() - 1 {
      assert s.ReceivedFrom(i + 1) == [];
      assert Flatten([f]) == f.data + [];
    } else {
      NextReceived(s, i);
      ReceivedFollow(s, i + 1);
      PutInFront(f, s.Received(i + 1), s.ReceivedFrom(i + 1));
    }
  }

  lemma ReceivedAreParts(s: Split)
    requires s.Valid() && s.OffsetsFit()
    ensures Parts(s.ReceivedFrom(0)) && Flatten(s.ReceivedFrom(0)) == s.msg
  {
    ReceivedFollow(s, 0);
    OffsetsAreStarts(s, 0);
    assert Start(s.chunk, 0) == 0;
    assert s.msg[0..] == s.msg;
  }

  // ---------------------------------------------------------------- delivery

  /** All of them are numbers of one of n fragments. */
  ghost predicate Numbers(n: nat, order: seq<nat>) {
    forall j :: 0 <= j < |order| ==> order[j] < n
  }

  /** Packet j carries fragment order[j]. */
  ghost predicate CarryInOrder(s: Split, order: seq<nat>, packets: seq<Packet>)
    requires s.Valid()
  {
    && |packets| == |order| && Numbers(s.Count(), order)
    && forall j {:trigger s.Datagram(order[j])} :: 0 <= j < |order| ==> Carries(packets[j], s.Datagram(order[j]))
  }

  /** Every fragment arrives at least once, the last missing one at the very end. */
  ghost predicate CompletesAtEnd(n: nat, order: seq<nat>) {
    order != [] && Missing(n, order) == {} && Missing(n, order[..|order| - 1]) != {}
  }

  ghost function ArrivalsOf(s: Split, order: seq<nat>, packets: seq<Packet>): (a: seq<Arrival>)
    requires s.Valid() && |packets| == |order| && Numbers(s.Count(), order)
    ensures |a| == |order|
    ensures forall j :: 0 <= j < |order| ==> a[j] == s.ArrivalOf(order[j], packets[j].dataFlag)
  {
    if order == [] then [] else [s.ArrivalOf(order[0], packets[0].dataFlag)] + ArrivalsOf(s, order[1..], packets[1..])
  }

  /** What an earlier message left behind makes no difference. */
  lemma {:induction false} RunIsArrivals(s: Split, leftover: seq<Fragment>, order: seq<nat>, packets: seq<Packet>)
    requires s.Valid() && CarryInOrder(s, order, packets) && order != []
    requires leftover == [] || leftover[0].id != s.id
    ensures Run(leftover, packets) == RunArrivals([], ArrivalsOf(s, order, packets))
  {
    var arrivals := ArrivalsOf(s, order, packets);
    forall j | 0 <= j < |packets| ensures Brings(packets[j], arrivals[j]) {
      DatagramBrings(s, order[j], packets[j]);
    }
    RunBrings([], packets, arrivals);
    StepBrings(leftover, packets[0], arrivals[0]);
    LeftoverIsInvisible(leftover, packets);
    assert packets[0] in packets;
  }

  /** What the calls return for a message that its last packet completes */
  ghost function DeliveryOf(s: Split, packets: seq<Packet>): RunResult
    requires packets != []
  {
    RunResult([], Waiting(|packets| - 1) + [Complete(s.msg, s.Kind(packets[|packets| - 1].dataFlag))])
  }

  lemma ArrivalsDelivered(s: Split, order: seq<nat>, packets: seq<Packet>)
    requires s.Valid() && s.OffsetsFit()
    requires |packets| == |order| && Numbers(s.Count(), order) && CompletesAtEnd(s.Count(), order)
    ensures RunArrivals([], ArrivalsOf(s, order, packets)) == DeliveryOf(s, packets)
  {
    ReceivedAreParts(s);
    DeliveryFromNothing(s.ReceivedFrom(0), order, ArrivalsOf(s, order, packets));
  }

  /** Every schedule that brings all fragments sooner or later completes at one of its packets. */
  lemma {:induction false} CompletesSomewhere(s: Split, order: seq<nat>) returns (k: nat)
    requires s.Valid() && Missing(s.Count(), order) == {}
    ensures 0 < k <= |order| && CompletesAtEnd(s.Count(), order[..k])
    decreases |order|
  {
    assert 0 in Missing(s.Count(), []);
    var front := order[..|order| - 1];
    if Missing(s.Count(), front) == {} {
      k := CompletesSomewhere(s, front);
      assert front[..k] == order[..k];
    } else {
      k := |order|;
      assert order[..k] == order;
    }
  }

  /** A fragment received whole in a buffer of its size */
  ghost function SentPacket(s: Split, i: nat, dataFlag: bool): (p: Packet)
    requires s.Valid() && i < s.Count()
    ensures Carries(p, s.Datagram(i)) && p.dataFlag == dataFlag
  {
    var datagram := s.Datagram(i);
    Packet(datagram, |datagram|, dataFlag)
  }

  ghost function Sent(s: Split, order: seq<nat>, dataFlag: bool): (packets: seq<Packet>)
    requires s.Valid() && forall j :: 0 <= j < |order| ==> order[j] < s.Count()
    ensures CarryInOrder(s, order, packets)
    ensures forall j :: 0 <= j < |packets| ==> packets[j].dataFlag == dataFlag
  {
    seq(|order|, j requires 0 <= j < |order| => SentPacket(s, order[j], dataFlag))
  }

  /** Sending the fragments one by one is such a schedule, and it completes at the last one. */
  lemma MessageOrder(s: Split) returns (order: seq<nat>)
    requires s.Valid()
    ensures |order| == s.Count() && (forall i :: 0 <= i < |order| ==> order[i] == i)
    ensures CompletesAtEnd(s.Count(), order)
  {
    order := seq(s.Count(), (i: nat) => i);
    forall i: nat | i < s.Count() ensures i in order { assert order[i] == i; }
    assert s.Count() - 1 in Missing(s.Count(), order[..|order| - 1]);
  }

  /**
   * Any order, any repetitions: every call but the last asks for more, the last one returns
   * the message, and nothing stays pending.
   */
  lemma {:induction false} DeliveredInAnyOrder(
    s: Split, leftover: seq<Fragment>, order: seq<nat>, packets: seq<Packet>)
    requires s.Valid() && s.OffsetsFit()
    requires leftover == [] || leftover[0].id != s.id
    requires CarryInOrder(s, order, packets) && CompletesAtEnd(s.Count(), order)
    ensures Run(leftover, packets) == DeliveryOf(s, packets)
  {
    RunIsArrivals(s, leftover, order, packets);
    ArrivalsDelivered(s, order, packets);
  }

  /** The theorem is not about nothing: a message sent fragment by fragment is delivered. */
  lemma {:induction false} DeliveryHappens(s: Split, leftover: seq<Fragment>, dataFlag: bool)
    returns (order: seq<nat>, packets: seq<Packet>)
    requires s.Valid() && s.OffsetsFit()
    requires leftover == [] || leftover[0].id != s.id
    ensures CarryInOrder(s, order, packets) && CompletesAtEnd(s.Count(), order)
    ensures Run(leftover, packets) == RunResult([], Waiting(s.Count() - 1) + [Complete(s.msg, s.Kind(dataFlag))])
  {
    order := MessageOrder(s);
    packets := Sent(s, order, dataFlag);
    assert packets[|packets| - 1].dataFlag == dataFlag;
    DeliveredInAnyOrder(s, leftover, order, packets);
  }

  // ---------------------------------------------------------------- when offsets do not fit

  /** The list holds nothing but fragments of the message, with their truncated offsets. */
  ghost predicate OnlyOf(s: Split, list: seq<Fragment>)
    requires s.Valid()
  {
    forall j :: 0 <= j < |list| ==>
      list[j].id == s.id && (list[j].last ==> list[j] == s.Received(s.Count() - 1))
  }

  lemma {:induction false} TotalOfOnly(s: Split, list: seq<Fragment>, acc: nat)
    requires s.Valid() && OnlyOf(s, list)
    ensures TotalSize(list, acc) == acc || TotalSize(list, acc) == EndOf(s.Received(s.Count() - 1))
  {
    if list != [] {
      TotalOfOnly(s, list[1..], if list[0].last then EndOf(list[0]) else acc);
    }
  }

  lemma TruncatedEnd(s: Split)
    requires s.Valid() && !s.OffsetsFit()
    ensures EndOf(s.Received(s.Count() - 1)) < |s.msg|
  {
    var units := Start(s.chunk, s.Count() - 1) / 8;
    assert 8 * units == Start(s.chunk, s.Count() - 1);
    assert units >= 8192 && units % 8192 < units;
  }

  /** What the completeness test lets through is as long as the last fragment claims. */
  lemma CompleteIsWithinTotal(list: seq<Fragment>, msgType: Option<nat>, dataFlag: bool)
    ensures var r := Assemble(list, msgType, dataFlag);
            r.outcome.Complete? ==> |r.outcome.bytes| <= TotalSize(list, 0)
  {
    WalkWithinSize(list, 0);
    SizeFromZero(list);
  }

  lemma TooLongToAccept(s: Split, list: seq<Fragment>, i: nat, msgType: Option<nat>, dataFlag: bool)
    requires s.Valid() && !s.OffsetsFit() && OnlyOf(s, list) && i < s.Count()
    ensures var r := Accept(list, s.Received(i), false, msgType, dataFlag);
            OnlyOf(s, r.list) && (r.outcome.Complete? ==> |r.outcome.bytes| < |s.msg|)
  {
    var all := [s.Received(i)] + Pending(list, s.id);
    assert OnlyOf(s, all);
    TotalOfOnly(s, all, 0);
    TruncatedEnd(s);
    CompleteIsWithinTotal(all, msgType, dataFlag);
  }

  /** Whatever completes is shorter than the message. */
  lemma {:induction false} TooLongNeverCompletes(s: Split, list: seq<Fragment>, order: seq<nat>, packets: seq<Packet>)
    requires s.Valid() && !s.OffsetsFit() && OnlyOf(s, list)
    requires |packets| == |order| && Numbers(s.Count(), order)
    ensures forall o <- RunArrivals(list, ArrivalsOf(s, order, packets)).outcomes ::
              o.Complete? ==> |o.bytes| < |s.msg|
    decreases |order|
  {
    if order != [] {
      var a := s.ArrivalOf(order[0], packets[0].dataFlag);
      TooLongToAccept(s, list, order[0], a.msgType, a.dataFlag);
      var next := Accept(list, a.fragment, false, a.msgType, a.dataFlag).list;
      TooLongNeverCompletes(s, next, order[1..], packets[1..]);
      assert ArrivalsOf(s, order, packets)[1..] == ArrivalsOf(s, order[1..], packets[1..]);
    }
  }

  /**
   * Exactly when: once every fragment has arrived, in whatever order, the message has been
   * returned if and only if its last fragment starts below byte 65536.
   */
  lemma {:induction false} DeliveredIffOffsetsFit(
    s: Split, leftover: seq<Fragment>, order: seq<nat>, packets: seq<Packet>)
    requires s.Valid()
    requires leftover == [] || leftover[0].id != s.id
    requires CarryInOrder(s, order, packets) && CompletesAtEnd(s.Count(), order)
    ensures (exists o :: o in Run(leftover, packets).outcomes && o.Complete? && o.bytes == s.msg)
            <==> s.OffsetsFit()
  {
    if s.OffsetsFit() {
      DeliveredInAnyOrder(s, leftover, order, packets);
      var outcomes := Run(leftover, packets).outcomes;
      assert outcomes[|order| - 1].Complete? && outcomes[|order| - 1] in outcomes;
    } else {
      RunIsArrivals(s, leftover, order, packets);
      TooLongNeverCompletes(s, [], order, packets);
    }
  }

  // ---------------------------------------------------------------- from the assemblers to the receiver

  /** Packet j carries datagram order[j]. */
  ghost predicate CarryDatagrams(datagrams: seq<seq<byte>>, order: seq<nat>, packets: seq<Packet>) {
    && |packets| == |order|
    && forall j :: 0 <= j < |order| ==> order[j] < |datagrams| && Carries(packets[j], datagrams[order[j]])
  }

  function DatagramsOf(s: Split): seq<seq<byte>>
    requires s.chunk > 0 && |s.msg| > 0
  {
    FragmentDatagrams(s.msg, s.chunk, s.id, s.payloadType, s.frameType, s.mac)
  }

  lemma CarryFragments(s: Split, order: seq<nat>, packets: seq<Packet>)
    requires s.Valid() && CarryDatagrams(DatagramsOf(s), order, packets)
    ensures CarryInOrder(s, order, packets) && |DatagramsOf(s)| == s.Count()
  {
    forall j | 0 <= j < |order| ensures order[j] < s.Count() && Carries(packets[j], s.Datagram(order[j])) {
      assert DatagramsOf(s)[order[j]] == s.Datagram(order[j]);
    }
  }

  /** What the calls that received fragments returned: the message at the last one, and before it requests for more */
  ghost predicate Delivers(msg: seq<byte>, kind: Option<nat>, leftover: seq<Fragment>, packets: seq<Packet>, n: nat) {
    && n > 0 && Run(leftover, packets).list == []
    && OfFragments(packets, Run(leftover, packets).outcomes) == Waiting(n - 1) + [Complete(msg, kind)]
  }

  /**
   * The datagrams of a message in any order and with repetitions, and among them any packets
   * that carry no fragment, accepted or refused: the message comes out when its last missing
   * fragment arrives, and nothing stays pending.
   */
  lemma {:induction false} DatagramsDelivered(
    s: Split, datagrams: seq<seq<byte>>, leftover: seq<Fragment>, order: seq<nat>, packets: seq<Packet>)
    requires s.Valid() && s.OffsetsFit() && datagrams == DatagramsOf(s)
    requires leftover == [] || leftover[0].id != s.id
    requires CarryDatagrams(datagrams, order, Fragments(packets)) && CompletesAtEnd(|datagrams|, order)
    ensures Delivers(s.msg, s.Kind(Fragments(packets)[|order| - 1].dataFlag), leftover, packets, |order|)
    ensures OthersAsAlone(packets, Run(leftover, packets).outcomes)
  {
    CarryFragments(s, order, Fragments(packets));
    DeliveredInAnyOrder(s, leftover, order, Fragments(packets));
    OthersPassThrough(leftover, packets);
  }

  /** How a data frame is cut at a path MTU */
  function DataSplit(frame: seq<byte>, pmtu: int, fragID: nat, payloadType: int, frameType: int, mac: Mac): Split {
    Split(frame, ChunkSize(pmtu, DATA_OVERHEAD), fragID, payloadType, frameType, mac)
  }

  /** The datagrams of a fragmented data frame are those of its split. */
  lemma DataSplitSent(
    frame: seq<byte>, pmtu: int, fragID: nat, payloadType: int, frameType: int, mac: Mac)
    requires 0 < |frame| < 0x1_0000_0000 && fragID <= MAX_FRAGMENT_ID
    requires |DataDatagrams(frame, pmtu, fragID, payloadType, frameType, mac)| > 1
    ensures var s := DataSplit(frame, pmtu, fragID, payloadType, frameType, mac);
            s.Valid() && DataDatagrams(frame, pmtu, fragID, payloadType, frameType, mac) == DatagramsOf(s)
  {
  }

  /** From CWAssembleDataMessage to the receiver: a data frame that is fragmented at the path MTU */
  lemma {:induction false} DataFrameDelivered(
    frame: seq<byte>, pmtu: int, fragID: nat, payloadType: int, frameType: int, mac: Mac,
    leftover: seq<Fragment>, order: seq<nat>, packets: seq<Packet>)
    requires 0 < |frame| < 0x1_0000_0000 && fragID <= MAX_FRAGMENT_ID
    requires leftover == [] || leftover[0].id != fragID
    requires var datagrams := DataDatagrams(frame, pmtu, fragID, payloadType, frameType, mac);
             && |datagrams| > 1
             && CarryDatagrams(datagrams, order, Fragments(packets)) && CompletesAtEnd(|datagrams|, order)
    requires DataSplit(frame, pmtu, fragID, payloadType, frameType, mac).OffsetsFit()
    ensures var s := DataSplit(frame, pmtu, fragID, payloadType, frameType, mac);
            Delivers(frame, s.Kind(Fragments(packets)[|order| - 1].dataFlag), leftover, packets, |order|)
  {
    DataSplitSent(frame, pmtu, fragID, payloadType, frameType, mac);
    DatagramsDelivered(DataSplit(frame, pmtu, fragID, payloadType, frameType, mac),
                       DataDatagrams(frame, pmtu, fragID, payloadType, frameType, mac), leftover, order, packets);
  }

  lemma {:induction false} AllAreFragments(packets: seq<Packet>)
    requires forall p <- packets :: FragmentOf(p).Some?
    ensures Fragments(packets) == packets
  {
    if packets != [] { AllAreFragments(packets[1..]); }
  }

  /** The datagrams one by one satisfy what is asked of a schedule. */
  lemma {:induction false} DatagramsSent(s: Split, dataFlag: bool) returns (order: seq<nat>, packets: seq<Packet>)
    requires s.Valid()
    ensures Fragments(packets) == packets && |order| == s.Count()
    ensures CarryDatagrams(DatagramsOf(s), order, packets) && CompletesAtEnd(|DatagramsOf(s)|, order)
  {
    order := MessageOrder(s);
    packets := Sent(s, order, dataFlag);
    forall j | 0 <= j < |packets|
      ensures FragmentOf(packets[j]).Some? && Carries(packets[j], DatagramsOf(s)[order[j]])
    {
      DatagramBrings(s, order[j], packets[j]);
      StepBrings([], packets[j], s.ArrivalOf(order[j], packets[j].dataFlag));
      assert DatagramsOf(s)[order[j]] == s.Datagram(order[j]);
    }
    AllAreFragments(packets);
  }

  /** For every frame that satisfies the condition on its offsets there is such a schedule. */
  lemma {:induction false} DataFrameHappens(
    frame: seq<byte>, pmtu: int, fragID: nat, payloadType: int, frameType: int, mac: Mac,
    leftover: seq<Fragment>, dataFlag: bool)
    returns (order: seq<nat>, packets: seq<Packet>)
    requires 0 < |frame| < 0x1_0000_0000 && fragID <= MAX_FRAGMENT_ID
    requires leftover == [] || leftover[0].id != fragID
    requires |DataDatagrams(frame, pmtu, fragID, payloadType, frameType, mac)| > 1
    requires DataSplit(frame, pmtu, fragID, payloadType, frameType, mac).OffsetsFit()
    ensures var datagrams := DataDatagrams(frame, pmtu, fragID, payloadType, frameType, mac);
            CarryDatagrams(datagrams, order, Fragments(packets)) && CompletesAtEnd(|datagrams|, order)
    ensures exists kind :: Delivers(frame, kind, leftover, packets, |order|)
  {
    DataSplitSent(frame, pmtu, fragID, payloadType, frameType, mac);
    order, packets := DatagramsSent(DataSplit(frame, pmtu, fragID, payloadType, frameType, mac), dataFlag);
    DataFrameDelivered(frame, pmtu, fragID, payloadType, frameType, mac, leftover, order, packets);
  }

  /** A data frame that is not fragmented */
  lemma WholeFrameDelivered(
    frame: seq<byte>, pmtu: int, fragID: nat, payloadType: int, frameType: int, mac: Mac,
    p: Packet, list: seq<Fragment>)
    requires var datagrams := DataDatagrams(frame, pmtu, fragID, payloadType, frameType, mac);
             |datagrams| == 1 && Carries(p, datagrams[0])
    ensures var r := Step(list, p);
            r.list == list && r.outcome.Complete? && r.outcome.bytes == frame && r.dataFlag == p.dataFlag
  {
    WholeMessageArrives(frame, payloadType, frameType, mac, p, list);
  }

  /** A message of at most 65536 bytes always fits. */
  lemma SmallMessagesFit(s: Split)
    requires s.Valid() && |s.msg| <= OFFSET_LIMIT
    ensures s.OffsetsFit()
  {
    CountBounds(|s.msg|, s.chunk);
  }

  /** A message of 65537 bytes cut after byte 65536 is one that does not fit. */
  lemma OneByteTooLong(b: byte, mac: Mac)
    ensures var s := Split(seq(65537, _ => b), 65536, 0, PACKET_PLAIN, 0, mac);
            s.Valid() && s.Count() == 2 && !s.OffsetsFit()
  {
    var s := Split(seq(65537, _ => b), 65536, 0, PACKET_PLAIN, 0, mac);
    assert FragmentCount(65537, 65536) == 2;
    assert Start(65536, 1) == 65536;
  }
}
