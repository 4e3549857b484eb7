/**
 * The Change State Event Request, read in two passes: the first counts the radio states and
 * reads the result code, the second fills the array of radio states.
 */
module ChangeState {
  import opened Wire
  import opened Wrappers
  import opened ControlMessage
  import opened TwoPass
  import EventMessages

  const CHANGE_STATE_EVENT_REQUEST := 11

  datatype Notes = Notes(radiosCount: nat, resultCode: Option<nat>)

  function Note(n: Notes, e: Element): Notes {
    if e.typ == RADIO_OPERATIONAL_STATE then n.(radiosCount := n.radiosCount + 1)
    else if e.typ == RESULT_CODE then n.(resultCode := Some(Get32(e.body, 0)))
    else n
  }

  /** The count of the radio states, and the last result code */
  function NotesOf(list: seq<Element>): Notes {
    if list == [] then Notes(0, None) else Note(NotesOf(Front(list)), Last(list))
  }

  function PickState(e: Element): Option<RadioState> {
    if e.typ == RADIO_OPERATIONAL_STATE then Some(StateAt(e.body, 0)) else None
  }

  function RadiosOf(list: seq<Element>): seq<RadioState> {
    Collect(list, PickState)
  }

  predicate ReadableFirst(e: Element) {
    e.typ == RADIO_OPERATIONAL_STATE || (e.typ == RESULT_CODE && Wellformed(e))
  }

  predicate ReadableSecond(e: Element) {
    e.typ == RADIO_OPERATIONAL_STATE ==> Wellformed(e)
  }

  lemma OneMoreNoted(done: seq<Element>, e: Element)
    ensures NotesOf(done + [e]) == Note(NotesOf(done), e)
  {
    assert Front(done + [e]) == done;
  }

  lemma {:induction false} CountIsLength(list: seq<Element>)
    ensures NotesOf(list).radiosCount == |RadiosOf(list)|
    decreases |list|
  {
    if list != [] { CountIsLength(Front(list)); }
  }

  // ---------------------------------------------------------------- what the request says

  datatype ChangeStateValues = ChangeStateValues(seqNum: nat, notes: Notes, radios: seq<RadioState>)

  /** The elements the loops meet; they may run past the length the header gives. */
  function ElementsOf(buf: seq<byte>): seq<Element> {
    Visited(buf, CONTROL_HEADER_SIZE, ElementsLength(ParsedHeader(buf, 0)))
  }

  /** What a message of `len` bytes says, `None` if it is malformed */
  ghost function ChangeStateIn(buf: seq<byte>, len: nat): Option<ChangeStateValues> {
    var h, list := ParsedHeader(buf, 0), ElementsOf(buf);
    if && h.msgType == CHANGE_STATE_EVENT_REQUEST
       && CONTROL_HEADER_SIZE + TotalSize(list) == len
       && AllPass(list, ReadableFirst) && AllPass(list, ReadableSecond)
    then Some(ChangeStateValues(h.seqNum, NotesOf(list), RadiosOf(list)))
    else None
  }

  // ---------------------------------------------------------------- the first loop

  method NoteElement(m: ProtocolMessage, notes: Notes, ghost e: Element) returns (ok: bool, next: Notes)
    requires e == ElementAt(m.msg[..], m.offset)
    modifies m`offset
    ensures ok <==> ReadableFirst(e)
    ensures ok ==> m.offset == old(m.offset) + Size(e) && next == Note(notes, e)
  {
    var typ, elemLen := ElementHeader(m);
    next := notes;
    if typ == RADIO_OPERATIONAL_STATE {
      next := notes.(radiosCount := notes.radiosCount + 1);
      m.offset := m.offset + elemLen;
      ok := true;
    } else if typ == RESULT_CODE {
      ConsumedInBody(typ, m.msg[..], m.offset, elemLen);
      ghost var at := m.offset;
      var resultCode;
      ok, resultCode := ParseResultCode(m, elemLen);
      if ok {
        ReadsInBody(typ, m.msg[..], at, elemLen);
      }
      next := notes.(resultCode := Some(resultCode));
    } else {
      ok := false;
    }
  }

  method NoteTurn(m: ProtocolMessage, notes: Notes, ghost buf: seq<byte>, ghost start: nat, ghost len: nat,
                  ghost done: seq<Element>, ghost rest: seq<Element>, ghost seen: seq<nat>)
    returns (ok: bool, next: Notes)
    requires m.msg[..] == buf && m.offset - start < len
    requires Walking(buf, start, len, done, rest, m.offset, seen)
    requires notes == NotesOf(done)
    modifies m`offset
    ensures rest != [] && done + rest == Visited(buf, start, len)
    ensures ok <==> ReadableFirst(rest[0])
    ensures ok ==> m.offset > old(m.offset) && next == NotesOf(done + [rest[0]])
    ensures ok ==> Walking(buf, start, len, done + [rest[0]], rest[1..], m.offset, seen + [old(m.offset)])
  {
    WalkTurns(buf, start, len, done, rest, m.offset, seen);
    OneMoreNoted(done, rest[0]);
    ok, next := NoteElement(m, notes, rest[0]);
  }

  method CountRadios(m: ProtocolMessage, len: nat) returns (ok: bool, notes: Notes, ghost seen: seq<nat>)
    modifies m`offset
    ensures var list := Visited(m.msg[..], old(m.offset), len);
            && (ok <==> AllPass(list, ReadableFirst))
            && (ok ==> m.offset == old(m.offset) + TotalSize(list) && notes == NotesOf(list)
                       && seen == Boundaries(old(m.offset), list))
  {
    ghost var buf, start := m.msg[..], m.offset;
    ghost var done, rest := [], Visited(buf, start, len);
    var offsetTillMessages := m.offset;
    notes, seen := Notes(0, None), [];
    WalkStarts(buf, start, len);
    while m.offset - offsetTillMessages < len
      invariant m.msg[..] == buf && m.offset >= start
      invariant Walking(buf, start, len, done, rest, m.offset, seen)
      invariant notes == NotesOf(done) && AllPass(done, ReadableFirst)
      decreases len - (m.offset - start)
    {
      ghost var at := m.offset;
      ok, notes := NoteTurn(m, notes, buf, start, len, done, rest, seen);
      OneMorePasses(done, rest, ReadableFirst);
      if !ok {
        return;
      }
      done, rest, seen := done + [rest[0]], rest[1..], seen + [at];
    }
    WalkEnds(buf, start, len, done, rest, m.offset, seen);
    ok := true;
  }

  // ---------------------------------------------------------------- the second loop

  ghost predicate Filled(radios: array<RadioState>, i: nat, done: seq<Element>, rest: seq<Element>)
    reads radios
  {
    && radios.Length == |RadiosOf(done + rest)|
    && i == |RadiosOf(done)| <= radios.Length && radios[..i] == RadiosOf(done)
  }

  method FillRadio(m: ProtocolMessage, radios: array<RadioState>, i: nat,
                   ghost done: seq<Element>, ghost rest: seq<Element>)
    returns (ok: bool, next: nat)
    requires rest != [] && rest[0] == ElementAt(m.msg[..], m.offset)
    requires Filled(radios, i, done, rest)
    modifies m`offset, radios
    ensures ok <==> ReadableSecond(rest[0])
    ensures ok ==> m.offset == old(m.offset) + Size(rest[0])
    ensures ok ==> Filled(radios, next, done + [rest[0]], rest[1..])
  {
    ghost var e := rest[0];
    CollectedAdded(done, e, PickState);
    FewerInPrefix(done + [e], rest[1..], PickState);
    assert done + [e] + rest[1..] == done + rest;
    var typ, elemLen := ElementHeader(m);
    next := i;
    if typ == RADIO_OPERATIONAL_STATE {
      ConsumedInBody(typ, m.msg[..], m.offset, elemLen);
      ghost var at := m.offset;
      var r;
      ok, r := ParseRadioOperationalState(m, elemLen);
      if ok {
        ReadsInBody(typ, m.msg[..], at, elemLen);
      }
      radios[i] := r;
      next := i + 1;
    } else {
      m.offset := m.offset + elemLen;
      ok := true;
    }
  }

  method FillTurn(m: ProtocolMessage, radios: array<RadioState>, i: nat,
                  ghost buf: seq<byte>, ghost start: nat, ghost len: nat,
                  ghost done: seq<Element>, ghost rest: seq<Element>, ghost seen: seq<nat>)
    returns (ok: bool, next: nat)
    requires m.msg[..] == buf && m.offset - start < len
    requires Walking(buf, start, len, done, rest, m.offset, seen)
    requires Filled(radios, i, done, rest)
    modifies m`offset, radios
    ensures m.msg[..] == buf && rest != [] && done + rest == Visited(buf, start, len)
    ensures ok <==> ReadableSecond(rest[0])
    ensures ok ==> m.offset > old(m.offset)
    ensures ok ==> Walking(buf, start, len, done + [rest[0]], rest[1..], m.offset, seen + [old(m.offset)])
    ensures ok ==> Filled(radios, next, done + [rest[0]], rest[1..])
  {
    WalkTurns(buf, start, len, done, rest, m.offset, seen);
    ok, next := FillRadio(m, radios, i, done, rest);
  }

  /** The second loop writes inside the array, fills it, and ends where the first one did. */
  method FillRadios(m: ProtocolMessage, len: nat, radios: array<RadioState>) returns (ok: bool, ghost seen: seq<nat>)
    requires radios.Length == |RadiosOf(Visited(m.msg[..], m.offset, len))|
    modifies m`offset, radios
    ensures var list := Visited(m.msg[..], old(m.offset), len);
            && (ok <==> AllPass(list, ReadableSecond))
            && (ok ==> m.offset == old(m.offset) + TotalSize(list) && radios[..] == RadiosOf(list)
                       && seen == Boundaries(old(m.offset), list))
  {
    ghost var buf, start := m.msg[..], m.offset;
    ghost var done, rest := [], Visited(buf, start, len);
    var offsetTillMessages := m.offset;
    var i := 0;
    seen := [];
    WalkStarts(buf, start, len);
    assert done + rest == rest;
    while m.offset - offsetTillMessages < len
      invariant m.msg[..] == buf && m.offset >= start
      invariant Walking(buf, start, len, done, rest, m.offset, seen)
      invariant Filled(radios, i, done, rest)
      invariant AllPass(done, ReadableSecond)
      decreases len - (m.offset - start)
    {
      ghost var at := m.offset;
      ok, i := FillTurn(m, radios, i, buf, start, len, done, rest, seen);
      OneMorePasses(done, rest, ReadableSecond);
      if !ok {
        return;
      }
      done, rest, seen := done + [rest[0]], rest[1..], seen + [at];
    }
    WalkEnds(buf, start, len, done, rest, m.offset, seen);
    ok := true;
  }

  /**
   * CWParseChangeStateEventRequestMessage for a message of `len` bytes.  `first` and `second`
   * are the places where the two loops met an element.
   */
  method ParseChangeStateEventRequest(m: ProtocolMessage, len: nat)
    returns (ok: bool, seqNum: nat, notes: Notes, radios: array<RadioState>,
             ghost first: seq<nat>, ghost second: seq<nat>)
    requires m.offset == 0
    modifies m`offset
    ensures var parsed := ChangeStateIn(m.msg[..], len);
            && (ok <==> parsed.Some?)
            && (ok ==> parsed == Some(ChangeStateValues(seqNum, notes, radios[..]))
                       && m.offset == len && first == second)
  {
    ghost var list := ElementsOf(m.msg[..]);
    var h := ParseControlHeader(m);
    ok, seqNum, notes, first, second := h.msgType == CHANGE_STATE_EVENT_REQUEST, h.seqNum, Notes(0, None), [], [];
    var msgElemsLen := ElementsLength(h);
    var offsetTillMessages := m.offset;
    if ok {
      ok, notes, first := CountRadios(m, msgElemsLen);
    }
    ok := ok && m.offset == len;
    radios := new RadioState[if ok then notes.radiosCount else 0];
    if !ok {
      return;
    }
    CountIsLength(list);
    m.offset := offsetTillMessages;
    ok, second := FillRadios(m, msgElemsLen, radios);
  }

  // ---------------------------------------------------------------- what is accepted

  lemma {:induction false} SizeSplits(list: seq<Element>)
    requires list != []
    ensures TotalSize(list) == TotalSize(Front(list)) + Size(Last(list))
  {
    if |list| > 1 {
      SizeSplits(list[1..]);
      assert Front(list)[1..] == Front(list[1..]);
    }
  }

  /** The loop stops after the same elements for every length that ends inside the last of them, and no other. */
  lemma {:induction false} StopsAfterIff(buf: seq<byte>, off: nat, list: seq<Element>, left: nat)
    requires list != [] && ElementsAt(buf, off, list)
    ensures Visited(buf, off, left) == list <==> TotalSize(Front(list)) < left <= TotalSize(list)
    decreases |list|
  {
    var rest := list[1..];
    var next := off + Size(list[0]);
    if left > 0 {
      var left' := left - Size(list[0]);
      assert Visited(buf, off, left) == [list[0]] + Visited(buf, next, left');
      assert [list[0]] + rest == list;
      if rest == [] {
        assert Front(list) == [];
      } else {
        assert Front(list) == [list[0]] + Front(rest);
        assert Front(list)[1..] == Front(rest);
        if left' > 0 {
          StopsAfterIff(buf, next, rest, left');
        }
      }
      if Visited(buf, off, left) == list {
        assert Visited(buf, off, left)[1..] == rest;
      }
    }
  }

  /** A loop that has passed as many bytes as the elements take has met the elements. */
  lemma {:induction false} SameTotalSameElements(buf: seq<byte>, off: nat, list: seq<Element>, left: int)
    requires ElementsAt(buf, off, list) && TotalSize(Visited(buf, off, left)) == TotalSize(list)
    ensures Visited(buf, off, left) == list
    decreases |list|
  {
    var met := Visited(buf, off, left);
    if list != [] && met != [] {
      assert met[1..] == Visited(buf, off + Size(list[0]), left - Size(list[0]));
      SameTotalSameElements(buf, off + Size(list[0]), list[1..], left - Size(list[0]));
      assert list == [list[0]] + list[1..];
    }
  }

  /** A request as it is sent, except that its header may give any length for the elements */
  function RequestBytes(seqNum: int, elemsLen: nat, list: seq<Element>): seq<byte> {
    ControlHeaderBytes(CHANGE_STATE_EVENT_REQUEST, seqNum, elemsLen) + ElementsBytes(list)
  }

  lemma RequestParts(seqNum: int, elemsLen: nat, list: seq<Element>)
    requires FitsFields(list) && elemsLen < 0x1_0000
    ensures var buf := RequestBytes(seqNum, elemsLen, list);
            && |buf| == CONTROL_HEADER_SIZE + TotalSize(list)
            && ParsedHeader(buf, 0).msgType == CHANGE_STATE_EVENT_REQUEST
            && ParsedHeader(buf, 0).seqNum == seqNum % 256
            && ElementsLength(ParsedHeader(buf, 0)) == elemsLen
            && ElementsAt(buf, CONTROL_HEADER_SIZE, list)
  {
    var header := ControlHeaderBytes(CHANGE_STATE_EVENT_REQUEST, seqNum, elemsLen);
    var buf := RequestBytes(seqNum, elemsLen, list);
    HoldsParts(buf, 0, header, ElementsBytes(list));
    HeaderReadBack(buf, 0, CHANGE_STATE_EVENT_REQUEST, seqNum, elemsLen);
    LengthReadBack(ParsedHeader(buf, 0), elemsLen);
    EncodedStandBehindEachOther(buf, CONTROL_HEADER_SIZE, list);
    BytesTakeTotal(list);
  }

  /**
   * A request with sound elements is read back exactly if the length in its header ends inside
   * the last element or at its end: the loops stop after the same elements for each of these
   * lengths, and the final test looks at the size of the message instead.
   */
  lemma ReadBackIff(seqNum: int, elemsLen: nat, list: seq<Element>)
    requires FitsFields(list) && elemsLen < 0x1_0000 && list != []
    requires forall i :: 0 <= i < |list| ==> ReadableFirst(list[i]) && ReadableSecond(list[i])
    ensures var buf := RequestBytes(seqNum, elemsLen, list);
            && (ChangeStateIn(buf, |buf|).Some? <==> TotalSize(Front(list)) < elemsLen <= TotalSize(list))
            && (ChangeStateIn(buf, |buf|).Some? ==>
                  ChangeStateIn(buf, |buf|) == Some(ChangeStateValues(seqNum % 256, NotesOf(list), RadiosOf(list))))
  {
    var buf := RequestBytes(seqNum, elemsLen, list);
    RequestParts(seqNum, elemsLen, list);
    StopsAfterIff(buf, CONTROL_HEADER_SIZE, list, elemsLen);
    AllPassIff(list, ReadableFirst);
    AllPassIff(list, ReadableSecond);
    if TotalSize(ElementsOf(buf)) == TotalSize(list) {
      SameTotalSameElements(buf, CONTROL_HEADER_SIZE, list, elemsLen);
    }
  }

  // ---------------------------------------------------------------- requests as lists of values

  /** What a WTP puts into a request */
  datatype Entry = State(radio: RadioState) | Result(code: nat)

  predicate Sendable(x: Entry) {
    match x
    case State(r) => r.radioID < 256 && r.state < 256 && r.cause < 256
    case Result(code) => code < 0x1_0000_0000
  }

  function AsElement(x: Entry): Element {
    match x
    case State(r) => Element(32, Put8(r.radioID) + (Put8(r.state) + Put8(r.cause)))
    case Result(code) => Element(33, Put32(code))
  }

  /** Type, length and body of each element */
  function EntryBytes(xs: seq<Entry>): seq<byte> {
    if xs == [] then []
    else
      (match xs[0]
       case State(r) => Put16(32) + Put16(3) + (Put8(r.radioID) + (Put8(r.state) + Put8(r.cause)))
       case Result(code) => Put16(33) + Put16(4) + Put32(code)) + EntryBytes(xs[1..])
  }

  /** An element takes four bytes and its body, of three bytes for a radio state and four for a result code. */
  function EntrySize(x: Entry): nat {
    if x.State? then 7 else 8
  }

  function EntriesSize(xs: seq<Entry>): nat {
    if xs == [] then 0 else EntriesSize(Front(xs)) + EntrySize(Last(xs))
  }

  function StatesIn(xs: seq<Entry>): seq<RadioState> {
    if xs == [] then [] else StatesIn(Front(xs)) + if Last(xs).State? then [Last(xs).radio] else []
  }

  function LastCode(xs: seq<Entry>): Option<nat> {
    if xs == [] then None else if Last(xs).Result? then Some(Last(xs).code) else LastCode(Front(xs))
  }

  function AsElements(xs: seq<Entry>): (es: seq<Element>)
    ensures |es| == |xs| && forall i :: 0 <= i < |xs| ==> es[i] == AsElement(xs[i])
  {
    if xs == [] then [] else [AsElement(xs[0])] + AsElements(xs[1..])
  }

  lemma EntryRead(x: Entry)
    requires Sendable(x)
    ensures ReadableFirst(AsElement(x)) && ReadableSecond(AsElement(x)) && Size(AsElement(x)) == EntrySize(x)
    ensures match x
            case State(r) => StateAt(AsElement(x).body, 0) == r
            case Result(code) => Get32(AsElement(x).body, 0) == code
  {
    EventMessages.HeldAtStart(AsElement(x).body);
    match x
    case State(r) => EventMessages.StateReadBack(AsElement(x).body, 0, r.radioID, r.state, r.cause);
    case Result(code) => EventMessages.ResultCodeReadBack(AsElement(x).body, 0, code);
  }

  lemma {:induction false} EntryBytesAreElements(xs: seq<Entry>)
    ensures EntryBytes(xs) == ElementsBytes(AsElements(xs))
  {
    if xs != [] { EntryBytesAreElements(xs[1..]); }
  }

  lemma FrontAsElements(xs: seq<Entry>)
    requires xs != []
    ensures Front(AsElements(xs)) == AsElements(Front(xs)) && Last(AsElements(xs)) == AsElement(Last(xs))
  {
  }

  lemma {:induction false} EntriesSaid(xs: seq<Entry>)
    requires forall i :: 0 <= i < |xs| ==> Sendable(xs[i])
    ensures NotesOf(AsElements(xs)) == Notes(|StatesIn(xs)|, LastCode(xs))
    ensures RadiosOf(AsElements(xs)) == StatesIn(xs) && TotalSize(AsElements(xs)) == EntriesSize(xs)
    decreases |xs|
  {
    if xs != [] {
      FrontAsElements(xs);
      EntriesSaid(Front(xs));
      EntryRead(Last(xs));
      SizeSplits(AsElements(xs));
    }
  }

  /**
   * A request with any values and any length in its header is accepted exactly if that length ends
   * inside the last element or at its end; it then gives the sequence number, the radio states in
   * their order, their number, and the last result code.
   */
  lemma ValuesReadBackIff(seqNum: int, elemsLen: nat, xs: seq<Entry>)
    requires xs != [] && elemsLen < 0x1_0000 && forall i :: 0 <= i < |xs| ==> Sendable(xs[i])
    ensures var buf := Put32(11) + Put8(seqNum) + Put16(3 + elemsLen) + Put8(0) + EntryBytes(xs);
            var end := EntriesSize(xs);
            && (ChangeStateIn(buf, |buf|).Some? <==> end - EntrySize(Last(xs)) < elemsLen <= end)
            && (ChangeStateIn(buf, |buf|).Some? ==>
                  ChangeStateIn(buf, |buf|) ==
                    Some(ChangeStateValues(seqNum % 256, Notes(|StatesIn(xs)|, LastCode(xs)), StatesIn(xs))))
  {
    var list := AsElements(xs);
    EntryBytesAreElements(xs);
    EntriesSaid(xs);
    EntriesSaid(Front(xs));
    FrontAsElements(xs);
    forall i | 0 <= i < |list|
      ensures ReadableFirst(list[i]) && ReadableSecond(list[i])
      ensures 0 <= list[i].typ < 0x1_0000 && |list[i].body| < 0x1_0000
    {
      EntryRead(xs[i]);
    }
    ReadBackIff(seqNum, elemsLen, list);
    assert Put32(11) + Put8(seqNum) + Put16(3 + elemsLen) + Put8(0) + EntryBytes(xs) ==
           RequestBytes(seqNum, elemsLen, list);
  }

  // ---------------------------------------------------------------- nothing else is accepted

  lemma {:induction false} VisitedStand(buf: seq<byte>, off: nat, left: int)
    ensures ElementsAt(buf, off, Visited(buf, off, left))
    decreases left
  {
    if left > 0 {
      var e := ElementAt(buf, off);
      VisitedStand(buf, off + Size(e), left - Size(e));
    }
  }

  lemma FirstStandsOn(buf: seq<byte>, off: nat, end: nat, e: Element, rest: seq<byte>)
    requires ElementAt(buf, off) == e && off + Size(e) <= end <= |buf| && rest == buf[off + Size(e)..end]
    ensures ElementBytes(e) + rest == buf[off..end]
  {
    EventMessages.ElementIsBytes(buf, off);
    EventMessages.TwoPieces(buf, off, off + Size(e), end);
  }

  /** Elements that stand inside the buffer are the bytes they stand on. */
  lemma {:induction false} StandingAreBytes(buf: seq<byte>, off: nat, list: seq<Element>)
    requires ElementsAt(buf, off, list) && off + TotalSize(list) <= |buf|
    ensures ElementsBytes(list) == buf[off..off + TotalSize(list)]
    decreases |list|
  {
    if list != [] {
      StandingAreBytes(buf, off + Size(list[0]), list[1..]);
      FirstStandsOn(buf, off, off + TotalSize(list), list[0], ElementsBytes(list[1..]));
    }
  }

  function EntryOf(e: Element): Entry {
    if e.typ == 32 then State(StateAt(e.body, 0)) else Result(Get32(e.body, 0))
  }

  lemma StateBytes(b: seq<byte>)
    requires |b| == 3
    ensures var r := StateAt(b, 0); Put8(r.radioID) + (Put8(r.state) + Put8(r.cause)) == b
  {
  }

  /** A readable element is what is sent for some value. */
  lemma ReadableIsSent(e: Element)
    requires ReadableFirst(e) && ReadableSecond(e)
    ensures Sendable(EntryOf(e)) && AsElement(EntryOf(e)) == e
  {
    if e.typ == 32 {
      StateBytes(e.body);
    } else {
      EventMessages.Bytes32(e.body, 0);
    }
  }

  function EntriesOf(es: seq<Element>): (xs: seq<Entry>)
    ensures |xs| == |es| && forall i :: 0 <= i < |es| ==> xs[i] == EntryOf(es[i])
  {
    if es == [] then [] else [EntryOf(es[0])] + EntriesOf(es[1..])
  }

  ghost predicate AllSendable(xs: seq<Entry>) {
    forall i :: 0 <= i < |xs| ==> Sendable(xs[i])
  }

  /** The loops stop behind these elements when the header gives them this length. */
  predicate StopsBehind(xs: seq<Entry>, left: nat) {
    if xs == [] then left == 0 else EntriesSize(xs) - EntrySize(Last(xs)) < left <= EntriesSize(xs)
  }

  ghost predicate SentForSome(bytes: seq<byte>, left: nat) {
    exists xs :: AllSendable(xs) && EntryBytes(xs) == bytes && StopsBehind(xs, left)
  }

  lemma StopsBehindIff(buf: seq<byte>, xs: seq<Entry>, left: nat)
    requires AllSendable(xs) && ElementsAt(buf, CONTROL_HEADER_SIZE, AsElements(xs))
    requires xs == [] ==> |buf| == CONTROL_HEADER_SIZE
    ensures xs != [] ==> (StopsBehind(xs, left) <==> Visited(buf, CONTROL_HEADER_SIZE, left) == AsElements(xs))
    ensures xs == [] ==> (StopsBehind(xs, left) <==> Visited(buf, CONTROL_HEADER_SIZE, left) == [])
  {
    if xs != [] {
      EntriesSaid(xs);
      EntriesSaid(Front(xs));
      FrontAsElements(xs);
      StopsAfterIff(buf, CONTROL_HEADER_SIZE, AsElements(xs), left);
    }
  }

  lemma AcceptedIsSent(buf: seq<byte>, left: nat)
    requires left == ElementsLength(ParsedHeader(buf, 0)) && ChangeStateIn(buf, |buf|).Some?
    ensures |buf| >= CONTROL_HEADER_SIZE && SentForSome(buf[CONTROL_HEADER_SIZE..], left)
  {
    var list := ElementsOf(buf);
    var xs := EntriesOf(list);
    AllPassIff(list, ReadableFirst);
    AllPassIff(list, ReadableSecond);
    forall i | 0 <= i < |list| ensures Sendable(xs[i]) && AsElement(xs[i]) == list[i] { ReadableIsSent(list[i]); }
    assert AsElements(xs) == list;
    VisitedStand(buf, CONTROL_HEADER_SIZE, left);
    StandingAreBytes(buf, CONTROL_HEADER_SIZE, list);
    EntryBytesAreElements(xs);
    StopsBehindIff(buf, xs, left);
    assert EntryBytes(xs) == buf[CONTROL_HEADER_SIZE..];
  }

  lemma SentIsAccepted(buf: seq<byte>, left: nat, xs: seq<Entry>)
    requires |buf| >= CONTROL_HEADER_SIZE && ParsedHeader(buf, 0).msgType == 11
    requires left == ElementsLength(ParsedHeader(buf, 0))
    requires AllSendable(xs) && EntryBytes(xs) == buf[CONTROL_HEADER_SIZE..] && StopsBehind(xs, left)
    ensures ChangeStateIn(buf, |buf|).Some?
  {
    var list := AsElements(xs);
    EntryBytesAreElements(xs);
    forall i | 0 <= i < |list|
      ensures ReadableFirst(list[i]) && ReadableSecond(list[i])
      ensures 0 <= list[i].typ < 0x1_0000 && |list[i].body| < 0x1_0000
    {
      EntryRead(xs[i]);
    }
    EncodedStandBehindEachOther(buf, CONTROL_HEADER_SIZE, list);
    BytesTakeTotal(list);
    StopsBehindIff(buf, xs, left);
    AllPassIff(list, ReadableFirst);
    AllPassIff(list, ReadableSecond);
  }

  /**
   * A message is accepted exactly if its type is 11 and the bytes behind its header are those of
   * some list of values behind which the loops stop for the length in the header.
   */
  lemma AcceptedIffSent(buf: seq<byte>, b: seq<int>)
    requires b == Slice(buf, 0, 8)
    ensures ChangeStateIn(buf, |buf|).Some? <==>
            && |buf| >= 8 && b[..4] == [0, 0, 0, 11]
            && SentForSome(buf[8..], (256 * b[5] + b[6] - 3) % 0x1_0000)
  {
    var left := ElementsLength(ParsedHeader(buf, 0));
    TypeIsEleven(buf, b);
    if ChangeStateIn(buf, |buf|).Some? {
      AcceptedIsSent(buf, left);
    } else if |buf| >= 8 && b[..4] == [0, 0, 0, 11] && SentForSome(buf[8..], left) {
      var xs :| AllSendable(xs) && EntryBytes(xs) == buf[8..] && StopsBehind(xs, left);
      SentIsAccepted(buf, left, xs);
    }
  }

  lemma TypeIsEleven(buf: seq<byte>, b: seq<int>)
    requires b == Slice(buf, 0, 8)
    ensures ParsedHeader(buf, 0).msgType == 11 <==> b[..4] == [0, 0, 0, 11]
    ensures ElementsLength(ParsedHeader(buf, 0)) == (256 * b[5] + b[6] - 3) % 0x1_0000
  {
    assert b[..4] == [b[0], b[1], b[2], b[3]];
    assert Get32(buf, 0) == 0x100_0000 * b[0] + 0x1_0000 * b[1] + 256 * b[2] + b[3];
  }
}
