/**
 * Control messages: the control header (section 4.5.1 of RFC 5415), the message elements
 * behind it (section 4.6), and the way of a whole message from CWAssembleMessage through
 * reassembly to the element walk of the receiver.
 */
module ControlMessage {
  import opened Wire
  import opened TransportHeader
  import opened Fragmentation
  import opened Reassembly
  import opened ReassemblyLaws
  import opened Delivery

  /** Bytes of the control header that the message element length also counts */
  const OFFSET_FOR_MSG_ELEMS := 3
  const CONTROL_HEADER_SIZE := 8
  const ELEMENT_HEADER_SIZE := 4

  datatype Element = Element(typ: int, body: seq<byte>)

  datatype Message = Message(msgType: int, seqNum: int, elements: seq<Element>)

  // ---------------------------------------------------------------- encoding

  function ElementBytes(e: Element): (s: seq<byte>)
    ensures |s| == ELEMENT_HEADER_SIZE + |e.body|
  {
    Put16(e.typ) + Put16(|e.body|) + e.body
  }

  function Join(parts: seq<seq<byte>>): seq<byte> {
    if parts == [] then [] else parts[0] + Join(parts[1..])
  }

  function ElementsBytes(es: seq<Element>): seq<byte> {
    if es == [] then [] else ElementBytes(es[0]) + ElementsBytes(es[1..])
  }

  function ControlHeaderBytes(msgType: int, seqNum: int, elemsLen: int): (s: seq<byte>)
    ensures |s| == CONTROL_HEADER_SIZE
  {
    Put32(msgType) + Put8(seqNum) + Put16(OFFSET_FOR_MSG_ELEMS + elemsLen) + Put8(0)
  }

  function MessageBytes(msgType: int, seqNum: int, parts: seq<seq<byte>>): seq<byte> {
    ControlHeaderBytes(msgType, seqNum, |Join(parts)|) + Join(parts)
  }

  /** The datagrams of a control message; the frame type of fragments is whatever the stack held. */
  function ControlDatagrams(bytes: seq<byte>, pmtu: int, fragID: nat, payloadType: int, staleType: int, mac: Mac)
    : seq<seq<byte>>
    requires bytes != []
  {
    var chunk := ChunkSize(pmtu, CONTROL_OVERHEAD);
    if FragmentCount(|bytes|, chunk) == 1 then [WholeDatagram(bytes, payloadType, 0, mac)]
    else FragmentDatagrams(bytes, chunk, fragID, payloadType, staleType, mac)
  }

  /** The 8 bytes of the control header; the last one, the flags, is zero. */
  lemma ControlHeaderBytesAre(msgType: int, seqNum: int, elemsLen: int)
    ensures ControlHeaderBytes(msgType, seqNum, elemsLen) ==
            [ (msgType / 0x100_0000) % 256, (msgType / 0x1_0000) % 256, (msgType / 256) % 256, msgType % 256,
              seqNum % 256, ((elemsLen + 3) / 256) % 256, (elemsLen + 3) % 256, 0 ]
  {
    StoredInNetworkOrder(msgType);
  }

  /** An element: two bytes of type, two of length, the body */
  lemma ElementBytesAre(e: Element)
    ensures ElementBytes(e) ==
            [(e.typ / 256) % 256, e.typ % 256, (|e.body| / 256) % 256, |e.body| % 256] + e.body
  {
  }

  /** A control message goes out in as few datagrams as possible behind 33 bytes of headers, whole if it is one. */
  lemma ControlDatagramCount(bytes: seq<byte>, pmtu: int, fragID: nat, payloadType: int, staleType: int, mac: Mac)
    requires bytes != []
    ensures var datagrams := ControlDatagrams(bytes, pmtu, fragID, payloadType, staleType, mac);
            && AsFewAsPossible(|datagrams|, |bytes|, pmtu - 33)
            && (|datagrams| == 1 ==> datagrams == [WholeDatagram(bytes, payloadType, 0, mac)])
  {
    CountIsLeast(|ControlDatagrams(bytes, pmtu, fragID, payloadType, staleType, mac)|, |bytes|, pmtu, CONTROL_OVERHEAD);
  }

  /** CWAssembleMsgElem: the message becomes an element whose body it was; two bytes of the new buffer stay unused. */
  method AssembleMsgElem(m: ProtocolMessage, typ: int)
    requires m.offset <= m.msg.Length
    modifies m
    ensures fresh(m.msg) && m.offset + 2 == m.msg.Length
    ensures m.Written() == ElementBytes(Element(typ, old(m.Written())))
  {
    var complete := new ProtocolMessage(6 + m.offset);
    complete.Store16(typ);
    complete.Store16(m.offset);
    complete.StoreMessage(m);
    m.msg := complete.msg;
    m.offset := complete.offset;
  }

  method AssembleControlHeader(msgType: int, seqNum: int, elemsLen: int) returns (h: ProtocolMessage)
    ensures fresh(h) && fresh(h.msg) && h.offset == h.msg.Length
    ensures h.Written() == ControlHeaderBytes(msgType, seqNum, elemsLen)
  {
    h := new ProtocolMessage(8);
    h.Store32(msgType);
    h.Store8(seqNum);
    h.Store16(OFFSET_FOR_MSG_ELEMS + elemsLen);
    h.Store8(0);
  }

  lemma {:induction false} JoinStep(parts: seq<seq<byte>>, i: nat)
    requires i < |parts|
    ensures Join(parts[..i + 1]) == Join(parts[..i]) + parts[i]
  {
    if i == 0 {
      assert parts[..1] == [parts[0]];
    } else {
      assert parts[..i + 1][1..] == parts[1..][..i] && parts[..i][1..] == parts[1..][..i - 1];
      JoinStep(parts[1..], i - 1);
    }
  }

  lemma {:induction false} JoinSplit(parts: seq<seq<byte>>, i: nat)
    requires i <= |parts|
    ensures Join(parts) == Join(parts[..i]) + Join(parts[i..])
  {
    if i > 0 {
      JoinSplit(parts, i - 1);
      JoinStep(parts, i - 1);
      assert parts[i - 1..][1..] == parts[i..];
    } else {
      assert parts[0..] == parts;
    }
  }

  lemma JoinConcat(a: seq<seq<byte>>, b: seq<seq<byte>>)
    ensures Join(a + b) == Join(a) + Join(b)
  {
    JoinSplit(a + b, |a|);
    assert (a + b)[..|a|] == a && (a + b)[|a|..] == b;
  }

  /** The size loop: the bytes all elements hold together */
  method TotalLength(elems: seq<seq<byte>>) returns (len: nat)
    ensures len == |Join(elems)|
  {
    len := 0;
    for i := 0 to |elems|
      invariant len == |Join(elems[..i])|
    {
      JoinStep(elems, i);
      len := len + |elems[i]|;
    }
    assert elems[..|elems|] == elems;
  }

  /** The store loop: one element after the other */
  method StoreElements(m: ProtocolMessage, elems: seq<seq<byte>>)
    requires m.offset + |Join(elems)| <= m.msg.Length
    modifies m`offset, m.msg
    ensures m.offset == old(m.offset) + |Join(elems)|
    ensures m.Written() == old(m.Written()) + Join(elems)
  {
    for i := 0 to |elems|
      invariant m.offset == old(m.offset) + |Join(elems[..i])| <= m.msg.Length
      invariant m.Written() == old(m.Written()) + Join(elems[..i])
    {
      JoinSplit(elems, i + 1);
      JoinStep(elems, i);
      m.StoreRawBytes(elems[i]);
    }
    assert elems[..|elems|] == elems;
  }

  /** The message elements, then the binding elements */
  method StoreAllElements(m: ProtocolMessage, elems: seq<seq<byte>>, bindingElems: seq<seq<byte>>)
    requires m.offset + |Join(elems)| + |Join(bindingElems)| == m.msg.Length
    modifies m`offset, m.msg
    ensures m.offset == m.msg.Length
    ensures m.Written() == old(m.Written()) + Join(elems + bindingElems)
  {
    JoinConcat(elems, bindingElems);
    StoreElements(m, elems);
    StoreElements(m, bindingElems);
  }

  /** The header and all elements in one buffer of exactly their size */
  method AssembleBytes(seqNum: int, msgType: int, elems: seq<seq<byte>>, bindingElems: seq<seq<byte>>)
    returns (m: ProtocolMessage)
    ensures fresh(m) && fresh(m.msg) && 0 < m.offset == m.msg.Length
    ensures m.Written() == MessageBytes(msgType, seqNum, elems + bindingElems)
  {
    var len := TotalLength(elems);
    var bindingLen := TotalLength(bindingElems);
    JoinConcat(elems, bindingElems);
    var header := AssembleControlHeader(msgType, seqNum, len + bindingLen);
    m := AssembleBehind(header, len + bindingLen, elems, bindingElems);
  }

  /** A buffer with the header in front and room for the elements, which are stored behind it */
  method AssembleBehind(header: ProtocolMessage, len: nat, elems: seq<seq<byte>>, bindingElems: seq<seq<byte>>)
    returns (m: ProtocolMessage)
    requires 0 < header.offset <= header.msg.Length && len == |Join(elems)| + |Join(bindingElems)|
    ensures fresh(m) && fresh(m.msg) && 0 < m.offset == m.msg.Length
    ensures m.Written() == header.Written() + Join(elems + bindingElems)
  {
    m := new ProtocolMessage(header.offset + len);
    m.StoreMessage(header);
    assert m.Written() == header.Written();
    StoreAllElements(m, elems, bindingElems);
  }

  /** CWAssembleMessage, given the bytes of the message elements and of the binding elements */
  method AssembleMessage(pmtu: int, seqNum: int, msgType: int, elems: seq<seq<byte>>, bindingElems: seq<seq<byte>>,
                         payloadType: int, staleType: int, mac: Mac, ids: FragmentCounter)
    returns (datagrams: seq<seq<byte>>)
    requires ids.Valid()
    modifies ids
    ensures ids.Valid()
    ensures datagrams == ControlDatagrams(MessageBytes(msgType, seqNum, elems + bindingElems), pmtu,
                                          old(ids.fragID), payloadType, staleType, mac)
    ensures ids.fragID == if |datagrams| == 1 then old(ids.fragID) else NextID(old(ids.fragID))
  {
    var msg := AssembleBytes(seqNum, msgType, elems, bindingElems);
    var chunk, n := PlanFragments(msg.offset, pmtu, MAX_DTLS_HEADER_SIZE + MAX_CAPWAP_HEADER_SIZE);
    if n == 1 {
      var d := AssembleDatagram(HeaderValues(payloadType, 0, 0, 0, 0, 0), mac, msg.msg[..msg.offset]);
      datagrams := [d];
    } else {
      var fragID := ids.GetFragmentID();
      datagrams := AssembleFragments(msg, chunk, n, fragID, payloadType, staleType, mac);
    }
  }

  // ---------------------------------------------------------------- decoding

  datatype ControlHeader = ControlHeader(msgType: nat, seqNum: nat, elemsLen: nat)

  function ParsedHeader(buf: seq<byte>, off: nat): ControlHeader {
    ControlHeader(Get32(buf, off), Get8(buf, off + 4), Get16(buf, off + 5))
  }

  method ParseControlHeader(m: ProtocolMessage) returns (h: ControlHeader)
    modifies m`offset
    ensures m.offset == old(m.offset) + CONTROL_HEADER_SIZE
    ensures h == ParsedHeader(m.msg[..], old(m.offset))
  {
    var msgType := m.Retrieve32();
    var seqNum := m.Retrieve8();
    var elemsLen := m.Retrieve16();
    var flags := m.Retrieve8();
    h := ControlHeader(msgType, seqNum, elemsLen);
  }

  /** The element at an offset: CWParseFormatMsgElem and the body it announces */
  function ElementAt(buf: seq<byte>, off: nat): Element {
    Element(Get16(buf, off), Slice(buf, off + ELEMENT_HEADER_SIZE, Get16(buf, off + 2)))
  }

  function Size(e: Element): nat {
    ELEMENT_HEADER_SIZE + |e.body|
  }

  datatype Elements = Garbage | Elements(list: seq<Element>)

  function Prepend(e: Element, rest: Elements): Elements {
    match rest
    case Garbage => Garbage
    case Elements(list) => Elements([e] + list)
  }

  /** The element walk over `left` bytes: it must end exactly where the elements end */
  function ReadElements(buf: seq<byte>, off: nat, left: int): Elements
    decreases left
  {
    if left < 0 then Garbage
    else if left == 0 then Elements([])
    else
      var e := ElementAt(buf, off);
      Prepend(e, ReadElements(buf, off + Size(e), left - Size(e)))
  }

  /** The element length without the header bytes it also counts, as an unsigned short */
  function ElementsLength(h: ControlHeader): nat {
    (h.elemsLen - OFFSET_FOR_MSG_ELEMS) % 0x1_0000
  }

  /** Control header and element walk of a reassembled message */
  function Decode(buf: seq<byte>): (ControlHeader, Elements) {
    var h := ParsedHeader(buf, 0);
    (h, ReadElements(buf, CONTROL_HEADER_SIZE, ElementsLength(h)))
  }

  lemma ElementReadBack(buf: seq<byte>, off: nat, e: Element)
    requires Holds(buf, off, ElementBytes(e))
    requires 0 <= e.typ < 0x1_0000 && |e.body| < 0x1_0000
    ensures ElementAt(buf, off) == e
  {
    HoldsParts(buf, off, Put16(e.typ) + Put16(|e.body|), e.body);
    HoldsParts(buf, off, Put16(e.typ), Put16(|e.body|));
    GetPut16(buf, off, e.typ);
    GetPut16(buf, off + 2, |e.body|);
    SliceHeld(buf, off + ELEMENT_HEADER_SIZE, e.body);
  }

  ghost predicate FitsFields(es: seq<Element>) {
    forall i :: 0 <= i < |es| ==> 0 <= es[i].typ < 0x1_0000 && |es[i].body| < 0x1_0000
  }

  lemma HoldsElements(buf: seq<byte>, off: nat, es: seq<Element>)
    requires es != [] && Holds(buf, off, ElementsBytes(es)) && FitsFields(es)
    ensures ElementAt(buf, off) == es[0]
    ensures Holds(buf, off + Size(es[0]), ElementsBytes(es[1..])) && FitsFields(es[1..])
    ensures |ElementsBytes(es)| == Size(es[0]) + |ElementsBytes(es[1..])|
  {
    HoldsParts(buf, off, ElementBytes(es[0]), ElementsBytes(es[1..]));
    ElementReadBack(buf, off, es[0]);
  }

  /** The elements stand one behind the other from an offset on. */
  predicate ElementsAt(buf: seq<byte>, off: nat, es: seq<Element>)
    decreases |es|
  {
    es == [] || (ElementAt(buf, off) == es[0] && ElementsAt(buf, off + Size(es[0]), es[1..]))
  }

  function TotalSize(es: seq<Element>): nat {
    if es == [] then 0 else Size(es[0]) + TotalSize(es[1..])
  }

  lemma {:induction false} BytesTakeTotal(es: seq<Element>)
    ensures |ElementsBytes(es)| == TotalSize(es)
  {
    if es != [] { BytesTakeTotal(es[1..]); }
  }

  lemma {:induction false} EncodedStandBehindEachOther(buf: seq<byte>, off: nat, es: seq<Element>)
    requires Holds(buf, off, ElementsBytes(es)) && FitsFields(es)
    ensures ElementsAt(buf, off, es)
    decreases |es|
  {
    if es != [] {
      HoldsElements(buf, off, es);
      EncodedStandBehindEachOther(buf, off + Size(es[0]), es[1..]);
    }
  }

  lemma {:induction false} ElementsReadBack(buf: seq<byte>, off: nat, es: seq<Element>)
    requires ElementsAt(buf, off, es)
    ensures ReadElements(buf, off, TotalSize(es)) == Elements(es)
    decreases |es|
  {
    if es != [] {
      ElementsReadBack(buf, off + Size(es[0]), es[1..]);
      ReadStep(buf, off, TotalSize(es), es[0], Elements(es[1..]));
      assert [es[0]] + es[1..] == es;
    }
  }

  lemma ReadStep(buf: seq<byte>, off: nat, left: int, e: Element, rest: Elements)
    requires left > 0 && ElementAt(buf, off) == e
    requires ReadElements(buf, off + Size(e), left - Size(e)) == rest
    ensures ReadElements(buf, off, left) == Prepend(e, rest)
  {}

  /** A walk that succeeds has read as many bytes as its elements take. */
  lemma {:induction false} ElementsTakeAll(buf: seq<byte>, off: nat, left: int)
    ensures match ReadElements(buf, off, left)
            case Garbage => true
            case Elements(es) => |ElementsBytes(es)| == left
    decreases left
  {
    if left > 0 {
      var e := ElementAt(buf, off);
      var rest := ReadElements(buf, off + Size(e), left - Size(e));
      ElementsTakeAll(buf, off + Size(e), left - Size(e));
      if rest.Elements? { assert ([e] + rest.list)[1..] == rest.list; }
    }
  }

  lemma {:induction false} JoinElements(es: seq<Element>, parts: seq<seq<byte>>)
    requires |parts| == |es| && forall i :: 0 <= i < |es| ==> parts[i] == ElementBytes(es[i])
    ensures Join(parts) == ElementsBytes(es)
  {
    if es != [] { JoinElements(es[1..], parts[1..]); }
  }

  function EncodedMessage(m: Message): seq<byte> {
    ControlHeaderBytes(m.msgType, m.seqNum, |ElementsBytes(m.elements)|) + ElementsBytes(m.elements)
  }

  /** CWAssembleMessage puts together the encoded message when it is given its encoded elements. */
  lemma AssembledIsEncoded(m: Message, parts: seq<seq<byte>>)
    requires |parts| == |m.elements|
    requires forall i :: 0 <= i < |parts| ==> parts[i] == ElementBytes(m.elements[i])
    ensures MessageBytes(m.msgType, m.seqNum, parts) == EncodedMessage(m)
  {
    JoinElements(m.elements, parts);
  }

  lemma HeaderReadBack(buf: seq<byte>, off: nat, msgType: int, seqNum: int, elemsLen: nat)
    requires Holds(buf, off, ControlHeaderBytes(msgType, seqNum, elemsLen))
    ensures ParsedHeader(buf, off) == ControlHeader(
              msgType % 0x1_0000_0000, seqNum % 256, (OFFSET_FOR_MSG_ELEMS + elemsLen) % 0x1_0000)
  {
    var a, b, c := Put32(msgType), Put8(seqNum), Put16(OFFSET_FOR_MSG_ELEMS + elemsLen);
    HoldsParts(buf, off, a + b + c, Put8(0));
    HoldsParts(buf, off, a + b, c);
    HoldsParts(buf, off, a, b);
    GetPut32(buf, off, msgType);
    GetPut8(buf, off + 4, seqNum);
    GetPut16(buf, off + 5, OFFSET_FOR_MSG_ELEMS + elemsLen);
  }

  lemma EncodedParts(m: Message)
    ensures Holds(EncodedMessage(m), 0, ControlHeaderBytes(m.msgType, m.seqNum, |ElementsBytes(m.elements)|))
    ensures Holds(EncodedMessage(m), CONTROL_HEADER_SIZE, ElementsBytes(m.elements))
  {
    var header := ControlHeaderBytes(m.msgType, m.seqNum, |ElementsBytes(m.elements)|);
    HoldsParts(EncodedMessage(m), 0, header, ElementsBytes(m.elements));
  }

  lemma LengthReadBack(h: ControlHeader, len: nat)
    requires h.elemsLen == (OFFSET_FOR_MSG_ELEMS + len) % 0x1_0000
    ensures ElementsLength(h) == len % 0x1_0000
  {}

  lemma LengthIsWhole(h: ControlHeader, len: nat)
    requires h.elemsLen == (OFFSET_FOR_MSG_ELEMS + len) % 0x1_0000
    ensures ElementsLength(h) == len <==> len < 0x1_0000
  {
    LengthReadBack(h, len);
  }

  /** Reading a given number of bytes gives the elements exactly when it is the number they take. */
  lemma ElementsDecided(buf: seq<byte>, off: nat, es: seq<Element>, left: nat)
    requires ElementsAt(buf, off, es)
    ensures ReadElements(buf, off, left) == Elements(es) <==> left == |ElementsBytes(es)|
  {
    BytesTakeTotal(es);
    ElementsReadBack(buf, off, es);
    ElementsTakeAll(buf, off, left);
  }

  lemma DecodeHeld(buf: seq<byte>, m: Message)
    requires ParsedHeader(buf, 0) == ControlHeader(
               m.msgType % 0x1_0000_0000, m.seqNum % 256,
               (OFFSET_FOR_MSG_ELEMS + |ElementsBytes(m.elements)|) % 0x1_0000)
    requires ElementsAt(buf, CONTROL_HEADER_SIZE, m.elements)
    ensures Decode(buf).0.msgType == m.msgType % 0x1_0000_0000 && Decode(buf).0.seqNum == m.seqNum % 256
    ensures Decode(buf).1 == Elements(m.elements) <==> |ElementsBytes(m.elements)| < 0x1_0000
  {
    var h := ParsedHeader(buf, 0);
    LengthIsWhole(h, |ElementsBytes(m.elements)|);
    ElementsDecided(buf, CONTROL_HEADER_SIZE, m.elements, ElementsLength(h));
  }

  /**
   * Decoding what was encoded gives back the message type, the sequence number modulo 256 and
   * the elements, exactly when all elements together take less than 65536 bytes: adding and
   * taking off the 3 extra bytes in 16 bits loses nothing.
   */
  lemma DecodeEncoded(m: Message)
    requires FitsFields(m.elements)
    ensures Decode(EncodedMessage(m)).0.msgType == m.msgType % 0x1_0000_0000
    ensures Decode(EncodedMessage(m)).0.seqNum == m.seqNum % 256
    ensures Decode(EncodedMessage(m)).1 == Elements(m.elements) <==> |ElementsBytes(m.elements)| < 0x1_0000
  {
    var buf := EncodedMessage(m);
    EncodedParts(m);
    HeaderReadBack(buf, 0, m.msgType, m.seqNum, |ElementsBytes(m.elements)|);
    EncodedStandBehindEachOther(buf, CONTROL_HEADER_SIZE, m.elements);
    DecodeHeld(buf, m);
  }

  // ---------------------------------------------------------------- end to end

  /** The bytes decode to the message, its sequence number in one byte. */
  predicate Decoded(bytes: seq<byte>, m: Message) {
    var d := Decode(bytes);
    d.0.msgType == m.msgType && d.0.seqNum == m.seqNum % 256 && d.1 == Elements(m.elements)
  }

  lemma EncodedDecodes(m: Message, bytes: seq<byte>)
    requires bytes == EncodedMessage(m)
    requires 0 <= m.msgType < 0x1_0000_0000 && FitsFields(m.elements) && |ElementsBytes(m.elements)| < 0x1_0000
    ensures Decoded(bytes, m)
  {
    DecodeEncoded(m);
  }

  /** How a control message is cut at a path MTU */
  function ControlSplit(bytes: seq<byte>, pmtu: int, fragID: nat, payloadType: int, staleType: int, mac: Mac): Split {
    Split(bytes, ChunkSize(pmtu, CONTROL_OVERHEAD), fragID, payloadType, staleType, mac)
  }

  /** The datagrams of a fragmented control message are those of its split. */
  lemma ControlSplitSent(
    bytes: seq<byte>, pmtu: int, fragID: nat, payloadType: int, staleType: int, mac: Mac)
    requires 0 < |bytes| < 0x1_0000_0000 && fragID <= MAX_FRAGMENT_ID
    requires |ControlDatagrams(bytes, pmtu, fragID, payloadType, staleType, mac)| > 1
    ensures var s := ControlSplit(bytes, pmtu, fragID, payloadType, staleType, mac);
            s.Valid() && ControlDatagrams(bytes, pmtu, fragID, payloadType, staleType, mac) == DatagramsOf(s)
  {
  }

  lemma {:induction false} BytesEndToEnd(
    bytes: seq<byte>, s: Split, pmtu: int, datagrams: seq<seq<byte>>,
    leftover: seq<Fragment>, order: seq<nat>, packets: seq<Packet>)
    requires 0 < |bytes| < 0x1_0000_0000 && s.id <= MAX_FRAGMENT_ID
    requires s == ControlSplit(bytes, pmtu, s.id, s.payloadType, s.frameType, s.mac) && s.OffsetsFit()
    requires datagrams == ControlDatagrams(bytes, pmtu, s.id, s.payloadType, s.frameType, s.mac) && |datagrams| > 1
    requires leftover == [] || leftover[0].id != s.id
    requires CarryDatagrams(datagrams, order, Fragments(packets)) && CompletesAtEnd(|datagrams|, order)
    ensures Delivers(bytes, s.Kind(Fragments(packets)[|order| - 1].dataFlag), leftover, packets, |order|)
  {
    ControlSplitSent(bytes, pmtu, s.id, s.payloadType, s.frameType, s.mac);
    DatagramsDelivered(s, datagrams, leftover, order, packets);
  }

  /**
   * From CWAssembleMessage to the decoder: the datagrams of a control message that is fragmented
   * at the path MTU, in any order, with repetitions, and among packets that carry no fragment.
   * The call that receives the last missing one returns bytes that decode to the message.
   */
  lemma {:induction false} FragmentedEndToEnd(
    m: Message, pmtu: int, fragID: nat, payloadType: int, staleType: int, mac: Mac,
    leftover: seq<Fragment>, order: seq<nat>, packets: seq<Packet>)
    requires 0 <= m.msgType < 0x1_0000_0000 && FitsFields(m.elements) && |ElementsBytes(m.elements)| < 0x1_0000
    requires fragID <= MAX_FRAGMENT_ID && (leftover == [] || leftover[0].id != fragID)
    requires var datagrams := ControlDatagrams(EncodedMessage(m), pmtu, fragID, payloadType, staleType, mac);
             && |datagrams| > 1
             && CarryDatagrams(datagrams, order, Fragments(packets)) && CompletesAtEnd(|datagrams|, order)
    requires ControlSplit(EncodedMessage(m), pmtu, fragID, payloadType, staleType, mac).OffsetsFit()
    ensures var s := ControlSplit(EncodedMessage(m), pmtu, fragID, payloadType, staleType, mac);
            Delivers(EncodedMessage(m), s.Kind(Fragments(packets)[|order| - 1].dataFlag), leftover, packets, |order|)
    ensures Decoded(EncodedMessage(m), m)
  {
    var bytes := EncodedMessage(m);
    BytesEndToEnd(bytes, ControlSplit(bytes, pmtu, fragID, payloadType, staleType, mac), pmtu,
                  ControlDatagrams(bytes, pmtu, fragID, payloadType, staleType, mac), leftover, order, packets);
    EncodedDecodes(m, bytes);
  }

  /** For every message that satisfies the condition on its offsets there is such a schedule. */
  lemma {:induction false} FragmentedHappens(
    m: Message, pmtu: int, fragID: nat, payloadType: int, staleType: int, mac: Mac,
    leftover: seq<Fragment>, dataFlag: bool)
    returns (order: seq<nat>, packets: seq<Packet>)
    requires 0 <= m.msgType < 0x1_0000_0000 && FitsFields(m.elements) && |ElementsBytes(m.elements)| < 0x1_0000
    requires fragID <= MAX_FRAGMENT_ID && (leftover == [] || leftover[0].id != fragID)
    requires |ControlDatagrams(EncodedMessage(m), pmtu, fragID, payloadType, staleType, mac)| > 1
    requires ControlSplit(EncodedMessage(m), pmtu, fragID, payloadType, staleType, mac).OffsetsFit()
    ensures var datagrams := ControlDatagrams(EncodedMessage(m), pmtu, fragID, payloadType, staleType, mac);
            CarryDatagrams(datagrams, order, Fragments(packets)) && CompletesAtEnd(|datagrams|, order)
    ensures exists kind :: Delivers(EncodedMessage(m), kind, leftover, packets, |order|)
  {
    var bytes := EncodedMessage(m);
    ControlSplitSent(bytes, pmtu, fragID, payloadType, staleType, mac);
    order, packets := DatagramsSent(ControlSplit(bytes, pmtu, fragID, payloadType, staleType, mac), dataFlag);
    FragmentedEndToEnd(m, pmtu, fragID, payloadType, staleType, mac, leftover, order, packets);
  }

  lemma ControlSplitFits(
    bytes: seq<byte>, pmtu: int, fragID: nat, payloadType: int, staleType: int, mac: Mac)
    requires 0 < |bytes| <= OFFSET_LIMIT && fragID <= MAX_FRAGMENT_ID
    requires |ControlDatagrams(bytes, pmtu, fragID, payloadType, staleType, mac)| > 1
    ensures ControlSplit(bytes, pmtu, fragID, payloadType, staleType, mac).OffsetsFit()
  {
    ControlSplitSent(bytes, pmtu, fragID, payloadType, staleType, mac);
    SmallMessagesFit(ControlSplit(bytes, pmtu, fragID, payloadType, staleType, mac));
  }

  /** Elements of up to 65528 bytes satisfy the condition on the offsets at every path MTU. */
  lemma ControlOffsetsFit(
    m: Message, pmtu: int, fragID: nat, payloadType: int, staleType: int, mac: Mac)
    requires |ElementsBytes(m.elements)| <= OFFSET_LIMIT - CONTROL_HEADER_SIZE && fragID <= MAX_FRAGMENT_ID
    requires |ControlDatagrams(EncodedMessage(m), pmtu, fragID, payloadType, staleType, mac)| > 1
    ensures ControlSplit(EncodedMessage(m), pmtu, fragID, payloadType, staleType, mac).OffsetsFit()
  {
    ControlSplitFits(EncodedMessage(m), pmtu, fragID, payloadType, staleType, mac);
  }

  /** A control message that needs no fragmentation */
  lemma WholeEndToEnd(
    m: Message, pmtu: int, fragID: nat, payloadType: int, staleType: int, mac: Mac, p: Packet, list: seq<Fragment>)
    requires 0 <= m.msgType < 0x1_0000_0000 && FitsFields(m.elements) && |ElementsBytes(m.elements)| < 0x1_0000
    requires var datagrams := ControlDatagrams(EncodedMessage(m), pmtu, fragID, payloadType, staleType, mac);
             |datagrams| == 1 && Carries(p, datagrams[0])
    ensures var r := Step(list, p);
            r.list == list && r.outcome.Complete? && Decoded(r.outcome.bytes, m)
  {
    WholeMessageArrives(EncodedMessage(m), payloadType, 0, mac, p, list);
    EncodedDecodes(m, EncodedMessage(m));
  }
}
