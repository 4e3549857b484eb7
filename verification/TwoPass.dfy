/**
 * Requests whose elements are read in two passes: the first checks the elements and counts
 * those that go into an array, the second fills the array.  This module holds the walk over
 * the elements, the element parsers, and the WTP Event Request.
 */
module TwoPass {
  import opened Wire
  import opened Wrappers
  import opened ControlMessage

  const DECRYPT_ERROR_REPORT := 15
  const DELETE_STATION := 18
  const DUPLICATE_IPV4 := 21
  const DUPLICATE_IPV6 := 22
  const RADIO_OPERATIONAL_STATE := 32
  const RESULT_CODE := 33
  const WTP_OPERATIONAL_STATISTICS := 46
  const WTP_RADIO_STATISTICS := 47
  const WTP_REBOOT_STATISTICS := 48

  // ---------------------------------------------------------------- the walk over the elements

  /** The elements a loop meets that stops once it has passed `left` bytes */
  function Visited(buf: seq<byte>, off: nat, left: int): seq<Element>
    decreases left
  {
    if left <= 0 then [] else
    var e := ElementAt(buf, off);
    [e] + Visited(buf, off + Size(e), left - Size(e))
  }

  /** Where each of the elements starts */
  function Boundaries(off: nat, list: seq<Element>): seq<nat>
    decreases |list|
  {
    if list == [] then [] else [off] + Boundaries(off + Size(list[0]), list[1..])
  }

  lemma FirstRead(e: Element, rest: seq<Element>, left: int, read: Elements)
    requires read == if TotalSize(rest) == left - Size(e) then Elements(rest) else Garbage
    ensures Prepend(e, read) == if TotalSize([e] + rest) == left then Elements([e] + rest) else Garbage
  {
    assert ([e] + rest)[1..] == rest;
  }

  /** The loop that ends exactly at `left` is the element walk of the message format. */
  lemma {:induction false} VisitedIsRead(buf: seq<byte>, off: nat, left: int)
    ensures var list := Visited(buf, off, left);
            ReadElements(buf, off, left) == if TotalSize(list) == left then Elements(list) else Garbage
    decreases left
  {
    if left > 0 {
      var e := ElementAt(buf, off);
      var next, behind := off + Size(e), left - Size(e);
      VisitedIsRead(buf, next, behind);
      ReadStep(buf, off, left, e, ReadElements(buf, next, behind));
      FirstRead(e, Visited(buf, next, behind), left, ReadElements(buf, next, behind));
    }
  }

  /** A loop over the elements of [start, start + len) has met some and stands before the rest. */
  ghost predicate Walking(buf: seq<byte>, start: nat, len: nat,
                          done: seq<Element>, rest: seq<Element>, off: nat, seen: seq<nat>)
  {
    && start <= off
    && rest == Visited(buf, off, len - (off - start))
    && done + rest == Visited(buf, start, len)
    && off - start + TotalSize(rest) == TotalSize(Visited(buf, start, len))
    && seen + Boundaries(off, rest) == Boundaries(start, Visited(buf, start, len))
  }

  lemma WalkStarts(buf: seq<byte>, start: nat, len: nat)
    ensures Walking(buf, start, len, [], Visited(buf, start, len), start, [])
  {
  }

  lemma WalkTurns(buf: seq<byte>, start: nat, len: nat,
      done: seq<Element>, rest: seq<Element>, off: nat, seen: seq<nat>)
    requires Walking(buf, start, len, done, rest, off, seen) && off - start < len
    ensures rest != [] && rest[0] == ElementAt(buf, off) && Visited(buf, start, len)[|done|] == rest[0]
    ensures Walking(buf, start, len, done + [rest[0]], rest[1..], off + Size(rest[0]), seen + [off])
  {
    assert done + [rest[0]] + rest[1..] == done + rest;
    assert seen + [off] + Boundaries(off + Size(rest[0]), rest[1..]) == seen + Boundaries(off, rest);
  }

  lemma WalkEnds(buf: seq<byte>, start: nat, len: nat,
      done: seq<Element>, rest: seq<Element>, off: nat, seen: seq<nat>)
    requires Walking(buf, start, len, done, rest, off, seen) && off - start >= len
    ensures done == Visited(buf, start, len) && rest == []
    ensures off == start + TotalSize(done) && seen == Boundaries(start, done)
  {
  }

  // ---------------------------------------------------------------- what the elements say

  /** How many bytes the parser of an element type takes */
  function Consumed(typ: int, buf: seq<byte>, off: nat): nat {
    if typ == DECRYPT_ERROR_REPORT then 3 + 6 * Get8(buf, off + 1)
    else if typ == DELETE_STATION then 2 + Get8(buf, off + 1)
    else if typ == DUPLICATE_IPV4 then 6 + Get8(buf, off + 5)
    else if typ == DUPLICATE_IPV6 then 18 + Get8(buf, off + 17)
    else if typ == RADIO_OPERATIONAL_STATE then 3
    else if typ == RESULT_CODE then 4
    else if typ == WTP_OPERATIONAL_STATISTICS then 4
    else if typ == WTP_RADIO_STATISTICS then 20
    else 15
  }

  /** An element parser succeeds if it takes exactly the element. */
  predicate Wellformed(e: Element) {
    Consumed(e.typ, e.body, 0) == |e.body|
  }

  datatype Report =
    | DecryptErrors(radioID: nat, numEntries: nat, length: nat, macs: seq<byte>)
    | DeletedStation(radioID: nat, length: nat, address: seq<byte>)
    | DuplicateIPv4(ipv4: nat, status: nat, length: nat, mac: seq<byte>)
    | DuplicateIPv6(ipv6: seq<byte>, status: nat, length: nat, mac: seq<byte>)
    | Reboots(counts: seq<nat>, lastFailureType: nat)

  function Words(buf: seq<byte>, off: nat, n: nat): (w: seq<nat>)
    ensures |w| == n
  {
    if n == 0 then [] else Words(buf, off, n - 1) + [Get16(buf, off + 2 * (n - 1))]
  }

  function DecryptErrorsAt(buf: seq<byte>, off: nat): Report {
    DecryptErrors(Get8(buf, off), Get8(buf, off + 1), Get8(buf, off + 2), Slice(buf, off + 3, 6 * Get8(buf, off + 1)))
  }

  function DeletedStationAt(buf: seq<byte>, off: nat): Report {
    DeletedStation(Get8(buf, off), Get8(buf, off + 1), Slice(buf, off + 2, Get8(buf, off + 1)))
  }

  function DuplicateIPv4At(buf: seq<byte>, off: nat): Report {
    DuplicateIPv4(Get32(buf, off), Get8(buf, off + 4), Get8(buf, off + 5), Slice(buf, off + 6, Get8(buf, off + 5)))
  }

  function DuplicateIPv6At(buf: seq<byte>, off: nat): Report {
    DuplicateIPv6(Slice(buf, off, 16), Get8(buf, off + 16), Get8(buf, off + 17),
                  Slice(buf, off + 18, Get8(buf, off + 17)))
  }

  function RebootsAt(buf: seq<byte>, off: nat): Report {
    Reboots(Words(buf, off, 7), Get8(buf, off + 14))
  }

  datatype OperationalStatistics = OperationalStatistics(radioID: nat, txQueueLevel: nat, framesPerSec: nat)

  function OperationalAt(buf: seq<byte>, off: nat): OperationalStatistics {
    OperationalStatistics(Get8(buf, off), Get8(buf, off + 1), Get16(buf, off + 2))
  }

  datatype RadioStatistics = RadioStatistics(radioID: nat, lastFailureType: nat, counts: seq<nat>)

  function RadioAt(buf: seq<byte>, off: nat): RadioStatistics {
    RadioStatistics(Get8(buf, off), Get8(buf, off + 1), Words(buf, off + 2, 9))
  }

  datatype RadioState = RadioState(radioID: nat, state: nat, cause: nat)

  function StateAt(buf: seq<byte>, off: nat): RadioState {
    RadioState(Get8(buf, off), Get8(buf, off + 1), Get8(buf, off + 2))
  }

  // ---------------------------------------------------------------- element parsers

  method RetrieveWords(m: ProtocolMessage, n: nat) returns (w: seq<nat>)
    modifies m`offset
    ensures m.offset == old(m.offset) + 2 * n && w == Words(m.msg[..], old(m.offset), n)
  {
    w := [];
    for i := 0 to n
      invariant m.offset == old(m.offset) + 2 * i && w == Words(m.msg[..], old(m.offset), i)
    {
      var x := m.Retrieve16();
      w := w + [x];
    }
  }

  method ParseDecryptErrorReport(m: ProtocolMessage, len: nat) returns (ok: bool, r: Report)
    modifies m`offset
    ensures m.offset == old(m.offset) + Consumed(DECRYPT_ERROR_REPORT, m.msg[..], old(m.offset))
    ensures (ok <==> m.offset == old(m.offset) + len) && r == DecryptErrorsAt(m.msg[..], old(m.offset))
  {
    var oldOffset := m.offset;
    var radioID := m.Retrieve8();
    var numEntries: nat := m.Retrieve8();
    var length := m.Retrieve8();
    var macs := [];
    if numEntries > 0 {
      macs := m.RetrieveRawBytes(6 * numEntries);
    }
    ok, r := m.offset - oldOffset == len, DecryptErrors(radioID, numEntries, length, macs);
  }

  method ParseDeleteStation(m: ProtocolMessage, len: nat) returns (ok: bool, r: Report)
    modifies m`offset
    ensures m.offset == old(m.offset) + Consumed(DELETE_STATION, m.msg[..], old(m.offset))
    ensures (ok <==> m.offset == old(m.offset) + len) && r == DeletedStationAt(m.msg[..], old(m.offset))
  {
    var oldOffset := m.offset;
    var radioID := m.Retrieve8();
    var length := m.Retrieve8();
    var address := m.RetrieveRawBytes(length);
    ok, r := m.offset - oldOffset == len, DeletedStation(radioID, length, address);
  }

  method ParseDuplicateIPv4(m: ProtocolMessage, len: nat) returns (ok: bool, r: Report)
    modifies m`offset
    ensures m.offset == old(m.offset) + Consumed(DUPLICATE_IPV4, m.msg[..], old(m.offset))
    ensures (ok <==> m.offset == old(m.offset) + len) && r == DuplicateIPv4At(m.msg[..], old(m.offset))
  {
    var oldOffset := m.offset;
    var ipv4 := m.Retrieve32();
    var status := m.Retrieve8();
    var length := m.Retrieve8();
    var mac := m.RetrieveRawBytes(length);
    ok, r := m.offset - oldOffset == len, DuplicateIPv4(ipv4, status, length, mac);
  }

  method ParseDuplicateIPv6(m: ProtocolMessage, len: nat) returns (ok: bool, r: Report)
    modifies m`offset
    ensures m.offset == old(m.offset) + Consumed(DUPLICATE_IPV6, m.msg[..], old(m.offset))
    ensures (ok <==> m.offset == old(m.offset) + len) && r == DuplicateIPv6At(m.msg[..], old(m.offset))
  {
    var oldOffset := m.offset;
    var ipv6 := m.RetrieveRawBytes(16);
    var status := m.Retrieve8();
    var length := m.Retrieve8();
    var mac := m.RetrieveRawBytes(length);
    ok, r := m.offset - oldOffset == len, DuplicateIPv6(ipv6, status, length, mac);
  }

  method ParseRebootStatistics(m: ProtocolMessage, len: nat) returns (ok: bool, r: Report)
    modifies m`offset
    ensures m.offset == old(m.offset) + Consumed(WTP_REBOOT_STATISTICS, m.msg[..], old(m.offset))
    ensures (ok <==> m.offset == old(m.offset) + len) && r == RebootsAt(m.msg[..], old(m.offset))
  {
    var oldOffset := m.offset;
    var counts := RetrieveWords(m, 7);
    var lastFailureType := m.Retrieve8();
    ok, r := m.offset - oldOffset == len, Reboots(counts, lastFailureType);
  }

  method ParseOperationalStatistics(m: ProtocolMessage, len: nat) returns (ok: bool, r: OperationalStatistics)
    modifies m`offset
    ensures m.offset == old(m.offset) + Consumed(WTP_OPERATIONAL_STATISTICS, m.msg[..], old(m.offset))
    ensures (ok <==> m.offset == old(m.offset) + len) && r == OperationalAt(m.msg[..], old(m.offset))
  {
    var oldOffset := m.offset;
    var radioID := m.Retrieve8();
    var txQueueLevel := m.Retrieve8();
    var framesPerSec := m.Retrieve16();
    ok, r := m.offset - oldOffset == len, OperationalStatistics(radioID, txQueueLevel, framesPerSec);
  }

  method ParseRadioStatistics(m: ProtocolMessage, len: nat) returns (ok: bool, r: RadioStatistics)
    modifies m`offset
    ensures m.offset == old(m.offset) + Consumed(WTP_RADIO_STATISTICS, m.msg[..], old(m.offset))
    ensures (ok <==> m.offset == old(m.offset) + len) && r == RadioAt(m.msg[..], old(m.offset))
  {
    var oldOffset := m.offset;
    var radioID := m.Retrieve8();
    var lastFailureType := m.Retrieve8();
    var counts := RetrieveWords(m, 9);
    ok, r := m.offset - oldOffset == len, RadioStatistics(radioID, lastFailureType, counts);
  }

  method ParseRadioOperationalState(m: ProtocolMessage, len: nat) returns (ok: bool, r: RadioState)
    modifies m`offset
    ensures m.offset == old(m.offset) + Consumed(RADIO_OPERATIONAL_STATE, m.msg[..], old(m.offset))
    ensures (ok <==> m.offset == old(m.offset) + len) && r == StateAt(m.msg[..], old(m.offset))
  {
    var oldOffset := m.offset;
    var radioID := m.Retrieve8();
    var state := m.Retrieve8();
    var cause := m.Retrieve8();
    ok, r := m.offset - oldOffset == len, RadioState(radioID, state, cause);
  }

  method ParseResultCode(m: ProtocolMessage, len: nat) returns (ok: bool, r: nat)
    modifies m`offset
    ensures m.offset == old(m.offset) + Consumed(RESULT_CODE, m.msg[..], old(m.offset))
    ensures (ok <==> m.offset == old(m.offset) + len) && r == Get32(m.msg[..], old(m.offset))
  {
    var oldOffset := m.offset;
    r := m.Retrieve32();
    ok := m.offset - oldOffset == len;
  }

  // ---------------------------------------------------------------- a parser and the body of its element

  lemma {:induction false} WordsInBody(buf: seq<byte>, off: nat, len: nat, d: nat, n: nat)
    requires d + 2 * n <= len
    ensures Words(buf, off + d, n) == Words(Slice(buf, off, len), d, n)
  {
    if n > 0 { WordsInBody(buf, off, len, d, n - 1); }
  }

  /** A parser takes as much as the length says exactly if the body, read alone, says so. */
  lemma ConsumedInBody(typ: int, buf: seq<byte>, off: nat, len: nat)
    ensures Consumed(typ, buf, off) == len <==> Consumed(typ, Slice(buf, off, len), 0) == len
  {
  }

  lemma SliceOfSlice(buf: seq<byte>, off: nat, len: nat, d: nat, n: nat)
    requires d + n <= len
    ensures Slice(Slice(buf, off, len), d, n) == Slice(buf, off + d, n)
  {
  }

  /** What a parser that succeeds has read is what the body says. */
  lemma ReadsInBody(typ: int, buf: seq<byte>, off: nat, len: nat)
    requires Consumed(typ, buf, off) == len
    ensures var body := Slice(buf, off, len);
            && (typ == DECRYPT_ERROR_REPORT ==> DecryptErrorsAt(buf, off) == DecryptErrorsAt(body, 0))
            && (typ == DELETE_STATION ==> DeletedStationAt(buf, off) == DeletedStationAt(body, 0))
            && (typ == DUPLICATE_IPV4 ==> DuplicateIPv4At(buf, off) == DuplicateIPv4At(body, 0))
            && (typ == DUPLICATE_IPV6 ==> DuplicateIPv6At(buf, off) == DuplicateIPv6At(body, 0))
            && (typ == WTP_REBOOT_STATISTICS ==> RebootsAt(buf, off) == RebootsAt(body, 0))
            && (typ == WTP_OPERATIONAL_STATISTICS ==> OperationalAt(buf, off) == OperationalAt(body, 0))
            && (typ == WTP_RADIO_STATISTICS ==> RadioAt(buf, off) == RadioAt(body, 0))
            && (typ == RADIO_OPERATIONAL_STATE ==> StateAt(buf, off) == StateAt(body, 0))
            && (typ == RESULT_CODE ==> Get32(buf, off) == Get32(body, 0))
  {
    if typ == DECRYPT_ERROR_REPORT {
      SliceOfSlice(buf, off, len, 3, len - 3);
    } else if typ == DELETE_STATION {
      SliceOfSlice(buf, off, len, 2, len - 2);
    } else if typ == DUPLICATE_IPV4 {
      SliceOfSlice(buf, off, len, 6, len - 6);
    } else if typ == DUPLICATE_IPV6 {
      SliceOfSlice(buf, off, len, 0, 16);
      SliceOfSlice(buf, off, len, 18, len - 18);
    } else if typ == WTP_REBOOT_STATISTICS {
      WordsInBody(buf, off, len, 0, 7);
    } else if typ == WTP_RADIO_STATISTICS {
      WordsInBody(buf, off, len, 2, 9);
    }
  }

  // ---------------------------------------------------------------- WTP Event Request

  /** What the first pass gathers: two counts, and of every other type the last element */
  datatype EventNotes = EventNotes(
    operationalCount: nat, radioCount: nat,
    errorReport: Option<Report>, deletedStation: Option<Report>,
    duplicateIPv4: Option<Report>, duplicateIPv6: Option<Report>, reboots: Option<Report>)

  function Note(n: EventNotes, e: Element): EventNotes {
    if e.typ == DECRYPT_ERROR_REPORT then n.(errorReport := Some(DecryptErrorsAt(e.body, 0)))
    else if e.typ == DELETE_STATION then n.(deletedStation := Some(DeletedStationAt(e.body, 0)))
    else if e.typ == DUPLICATE_IPV4 then n.(duplicateIPv4 := Some(DuplicateIPv4At(e.body, 0)))
    else if e.typ == DUPLICATE_IPV6 then n.(duplicateIPv6 := Some(DuplicateIPv6At(e.body, 0)))
    else if e.typ == WTP_REBOOT_STATISTICS then n.(reboots := Some(RebootsAt(e.body, 0)))
    else if e.typ == WTP_OPERATIONAL_STATISTICS then n.(operationalCount := n.operationalCount + 1)
    else if e.typ == WTP_RADIO_STATISTICS then n.(radioCount := n.radioCount + 1)
    else n
  }

  function Front<T>(s: seq<T>): seq<T>
    requires s != []
  {
    s[..|s| - 1]
  }

  function Last<T>(s: seq<T>): T
    requires s != []
  {
    s[|s| - 1]
  }

  function NotesOf(list: seq<Element>): EventNotes {
    if list == [] then EventNotes(0, 0, None, None, None, None, None)
    else Note(NotesOf(Front(list)), Last(list))
  }

  /** What is picked from the elements of a list, in their order */
  function Collect<T>(list: seq<Element>, pick: Element -> Option<T>): seq<T> {
    if list == [] then []
    else Collect(Front(list), pick) + match pick(Last(list)) case None => [] case Some(x) => [x]
  }

  lemma CollectedAdded<T>(done: seq<Element>, e: Element, pick: Element -> Option<T>)
    ensures Collect(done + [e], pick) == Collect(done, pick) + match pick(e) case None => [] case Some(x) => [x]
  {
    assert Front(done + [e]) == done;
  }

  lemma {:induction false} FewerInPrefix<T>(done: seq<Element>, rest: seq<Element>, pick: Element -> Option<T>)
    ensures |Collect(done, pick)| <= |Collect(done + rest, pick)|
    decreases |rest|
  {
    if rest == [] {
      assert done + rest == done;
    } else {
      FewerInPrefix(done, Front(rest), pick);
      assert Front(done + rest) == done + Front(rest);
    }
  }

  function PickOperational(e: Element): Option<OperationalStatistics> {
    if e.typ == WTP_OPERATIONAL_STATISTICS then Some(OperationalAt(e.body, 0)) else None
  }

  function PickRadio(e: Element): Option<RadioStatistics> {
    if e.typ == WTP_RADIO_STATISTICS then Some(RadioAt(e.body, 0)) else None
  }

  function OperationalOf(list: seq<Element>): seq<OperationalStatistics> {
    Collect(list, PickOperational)
  }

  function RadioOf(list: seq<Element>): seq<RadioStatistics> {
    Collect(list, PickRadio)
  }

  predicate Statistics(e: Element) {
    e.typ == WTP_OPERATIONAL_STATISTICS || e.typ == WTP_RADIO_STATISTICS
  }

  predicate Single(e: Element) {
    e.typ == DECRYPT_ERROR_REPORT || e.typ == DELETE_STATION || e.typ == DUPLICATE_IPV4
    || e.typ == DUPLICATE_IPV6 || e.typ == WTP_REBOOT_STATISTICS
  }

  /** The first pass takes statistics of any length, the second checks them. */
  predicate PassesFirst(e: Element) {
    Statistics(e) || (Single(e) && Wellformed(e))
  }

  predicate PassesSecond(e: Element) {
    Statistics(e) ==> Wellformed(e)
  }

  predicate AllPass(list: seq<Element>, passes: Element -> bool) {
    list == [] || (AllPass(Front(list), passes) && passes(Last(list)))
  }

  lemma {:induction false} AllPassIff(list: seq<Element>, passes: Element -> bool)
    ensures AllPass(list, passes) <==> forall i :: 0 <= i < |list| ==> passes(list[i])
  {
    if list != [] {
      AllPassIff(Front(list), passes);
      assert forall i :: 0 <= i < |list| - 1 ==> Front(list)[i] == list[i];
    }
  }

  lemma OneMorePasses(done: seq<Element>, rest: seq<Element>, passes: Element -> bool)
    requires rest != []
    ensures AllPass(done + [rest[0]], passes) <==> AllPass(done, passes) && passes(rest[0])
    ensures !passes(rest[0]) ==> !AllPass(done + rest, passes)
  {
    assert Front(done + [rest[0]]) == done && (done + rest)[|done|] == rest[0];
    AllPassIff(done + rest, passes);
  }

  datatype EventValues = EventValues(
    notes: EventNotes, operational: seq<OperationalStatistics>, radio: seq<RadioStatistics>)

  /** What the request says, `None` if it is malformed */
  ghost function EventIn(buf: seq<byte>, off: nat, len: nat): Option<EventValues> {
    var list := Visited(buf, off, len);
    if TotalSize(list) == len && forall i :: 0 <= i < |list| ==> PassesFirst(list[i]) && PassesSecond(list[i])
    then Some(EventValues(NotesOf(list), OperationalOf(list), RadioOf(list)))
    else None
  }

  /** One element in the first pass */
  method NoteElement(m: ProtocolMessage, typ: nat, elemLen: nat, notes: EventNotes, ghost e: Element)
    returns (ok: bool, next: EventNotes)
    requires e == Element(typ, Slice(m.msg[..], m.offset, elemLen))
    modifies m`offset
    ensures ok <==> PassesFirst(e)
    ensures ok ==> m.offset == old(m.offset) + elemLen && next == Note(notes, e)
  {
    ConsumedInBody(typ, m.msg[..], m.offset, elemLen);
    ghost var sound := Consumed(typ, m.msg[..], m.offset) == elemLen;
    if sound {
      ReadsInBody(typ, m.msg[..], m.offset, elemLen);
    }
    next := notes;
    if typ == DECRYPT_ERROR_REPORT {
      var r;
      ok, r := ParseDecryptErrorReport(m, elemLen);
      next := notes.(errorReport := Some(r));
    } else if typ == DUPLICATE_IPV4 {
      var r;
      ok, r := ParseDuplicateIPv4(m, elemLen);
      next := notes.(duplicateIPv4 := Some(r));
    } else if typ == DUPLICATE_IPV6 {
      var r;
      ok, r := ParseDuplicateIPv6(m, elemLen);
      next := notes.(duplicateIPv6 := Some(r));
    } else if typ == WTP_OPERATIONAL_STATISTICS {
      next := notes.(operationalCount := notes.operationalCount + 1);
      m.offset := m.offset + elemLen;
      ok := true;
    } else if typ == WTP_RADIO_STATISTICS {
      next := notes.(radioCount := notes.radioCount + 1);
      m.offset := m.offset + elemLen;
      ok := true;
    } else if typ == WTP_REBOOT_STATISTICS {
      var r;
      ok, r := ParseRebootStatistics(m, elemLen);
      next := notes.(reboots := Some(r));
    } else if typ == DELETE_STATION {
      var r;
      ok, r := ParseDeleteStation(m, elemLen);
      next := notes.(deletedStation := Some(r));
    } else {
      ok := false;
    }
  }

  lemma NoteAdded(done: seq<Element>, e: Element)
    ensures NotesOf(done + [e]) == Note(NotesOf(done), e)
  {
    assert Front(done + [e]) == done;
  }

  /** CWParseFormatMsgElem, and the element that follows it */
  method ElementHeader(m: ProtocolMessage) returns (typ: nat, elemLen: nat)
    modifies m`offset
    ensures m.offset == old(m.offset) + ELEMENT_HEADER_SIZE
    ensures ElementAt(m.msg[..], old(m.offset)) == Element(typ, Slice(m.msg[..], m.offset, elemLen))
  {
    typ := m.Retrieve16();
    elemLen := m.Retrieve16();
  }

  /** The header of an element and the element */
  method CheckElement(m: ProtocolMessage, notes: EventNotes, ghost e: Element) returns (ok: bool, next: EventNotes)
    requires e == ElementAt(m.msg[..], m.offset)
    modifies m`offset
    ensures ok <==> PassesFirst(e)
    ensures ok ==> m.offset == old(m.offset) + Size(e) && next == Note(notes, e)
  {
    var typ, elemLen := ElementHeader(m);
    ok, next := NoteElement(m, typ, elemLen, notes, e);
  }

  /** One turn of the first loop */
  method CheckTurn(m: ProtocolMessage, notes: EventNotes, ghost buf: seq<byte>, ghost start: nat, ghost len: nat,
                   ghost done: seq<Element>, ghost rest: seq<Element>, ghost seen: seq<nat>)
    returns (ok: bool, next: EventNotes)
    requires m.msg[..] == buf && m.offset - start < len
    requires Walking(buf, start, len, done, rest, m.offset, seen)
    requires notes == NotesOf(done)
    modifies m`offset
    ensures rest != [] && done + rest == Visited(buf, start, len)
    ensures ok <==> PassesFirst(rest[0])
    ensures ok ==> m.offset > old(m.offset) && next == NotesOf(done + [rest[0]])
    ensures ok ==> Walking(buf, start, len, done + [rest[0]], rest[1..], m.offset, seen + [old(m.offset)])
  {
    WalkTurns(buf, start, len, done, rest, m.offset, seen);
    NoteAdded(done, rest[0]);
    ok, next := CheckElement(m, notes, rest[0]);
  }

  /** The first loop: it accepts and notes every element, and must end where the elements end. */
  method CheckEvent(m: ProtocolMessage, len: nat) returns (ok: bool, notes: EventNotes, ghost seen: seq<nat>)
    modifies m`offset
    ensures var list := Visited(m.msg[..], old(m.offset), len);
            && (ok <==> TotalSize(list) == len && AllPass(list, PassesFirst))
            && (ok ==> m.offset == old(m.offset) + len && notes == NotesOf(list)
                       && seen == Boundaries(old(m.offset), list))
  {
    ghost var buf, start := m.msg[..], m.offset;
    ghost var done, rest := [], Visited(buf, start, len);
    var offsetTillMessages := m.offset;
    notes, seen := EventNotes(0, 0, None, None, None, None, None), [];
    WalkStarts(buf, start, len);
    while m.offset - offsetTillMessages < len
      invariant m.msg[..] == buf && m.offset >= start
      invariant Walking(buf, start, len, done, rest, m.offset, seen)
      invariant notes == NotesOf(done) && AllPass(done, PassesFirst)
      decreases len - (m.offset - start)
    {
      ghost var at := m.offset;
      ok, notes := CheckTurn(m, notes, buf, start, len, done, rest, seen);
      OneMorePasses(done, rest, PassesFirst);
      if !ok {
        return;
      }
      done, rest, seen := done + [rest[0]], rest[1..], seen + [at];
    }
    WalkEnds(buf, start, len, done, rest, m.offset, seen);
    ok := m.offset - offsetTillMessages == len;
  }

  lemma {:induction false} CountsAreLengths(list: seq<Element>)
    ensures NotesOf(list).operationalCount == |OperationalOf(list)|
    ensures NotesOf(list).radioCount == |RadioOf(list)|
    decreases |list|
  {
    if list != [] { CountsAreLengths(Front(list)); }
  }

  /** The first k places of the array hold what is picked from the elements done; what the rest brings fits. */
  ghost predicate FilledFrom<T(!new)>(places: array<T>, k: nat, done: seq<Element>, rest: seq<Element>,
                                pick: Element -> Option<T>)
    reads places
  {
    && places.Length == |Collect(done + rest, pick)|
    && k == |Collect(done, pick)| <= places.Length && places[..k] == Collect(done, pick)
  }

  /** The next element belongs into the next place. */
  method FillPlace<T(!new)>(places: array<T>, k: nat, x: T, ghost done: seq<Element>, ghost rest: seq<Element>,
                      ghost pick: Element -> Option<T>)
    requires FilledFrom(places, k, done, rest, pick) && rest != [] && pick(rest[0]) == Some(x)
    modifies places
    ensures FilledFrom(places, k + 1, done + [rest[0]], rest[1..], pick)
  {
    NextPicked(done, rest, pick);
    places[k] := x;
  }

  lemma NextPicked<T>(done: seq<Element>, rest: seq<Element>, pick: Element -> Option<T>)
    requires rest != []
    ensures Collect(done + [rest[0]], pick) ==
            Collect(done, pick) + match pick(rest[0]) case None => [] case Some(x) => [x]
    ensures Collect(done + [rest[0]] + rest[1..], pick) == Collect(done + rest, pick)
    ensures |Collect(done + [rest[0]], pick)| <= |Collect(done + rest, pick)|
  {
    CollectedAdded(done, rest[0], pick);
    FewerInPrefix(done + [rest[0]], rest[1..], pick);
    assert done + [rest[0]] + rest[1..] == done + rest;
  }

  /** The next element does not belong into this array. */
  lemma NotFilled<T(!new)>(places: array<T>, k: nat, done: seq<Element>, rest: seq<Element>, pick: Element -> Option<T>)
    requires FilledFrom(places, k, done, rest, pick) && rest != [] && pick(rest[0]) == None
    ensures FilledFrom(places, k, done + [rest[0]], rest[1..], pick)
  {
    NextPicked(done, rest, pick);
  }

  lemma FillingStarts<T(!new)>(places: array<T>, list: seq<Element>, pick: Element -> Option<T>)
    requires places.Length == |Collect(list, pick)|
    ensures FilledFrom(places, 0, [], list, pick)
  {
    assert [] + list == list;
  }

  lemma FillingEnds<T(!new)>(places: array<T>, k: nat, list: seq<Element>, pick: Element -> Option<T>)
    requires FilledFrom(places, k, list, [], pick)
    ensures places[..] == Collect(list, pick)
  {
    assert list + [] == list;
  }

  /** Both arrays, up to their next free places k and i */
  ghost predicate Filled(operational: array<OperationalStatistics>, radio: array<RadioStatistics>,
                         k: nat, i: nat, done: seq<Element>, rest: seq<Element>)
    reads operational, radio
  {
    FilledFrom(operational, k, done, rest, PickOperational) && FilledFrom(radio, i, done, rest, PickRadio)
  }

  // The counted elements, read where their body is

  method ReadOperational(m: ProtocolMessage, elemLen: nat, ghost e: Element)
    returns (ok: bool, r: OperationalStatistics)
    requires e == Element(WTP_OPERATIONAL_STATISTICS, Slice(m.msg[..], m.offset, elemLen))
    modifies m`offset
    ensures ok <==> Wellformed(e)
    ensures ok ==> m.offset == old(m.offset) + elemLen && r == OperationalAt(e.body, 0)
  {
    ConsumedInBody(WTP_OPERATIONAL_STATISTICS, m.msg[..], m.offset, elemLen);
    ghost var at := m.offset;
    ok, r := ParseOperationalStatistics(m, elemLen);
    if ok {
      ReadsInBody(WTP_OPERATIONAL_STATISTICS, m.msg[..], at, elemLen);
    }
  }

  method ReadRadio(m: ProtocolMessage, elemLen: nat, ghost e: Element)
    returns (ok: bool, r: RadioStatistics)
    requires e == Element(WTP_RADIO_STATISTICS, Slice(m.msg[..], m.offset, elemLen))
    modifies m`offset
    ensures ok <==> Wellformed(e)
    ensures ok ==> m.offset == old(m.offset) + elemLen && r == RadioAt(e.body, 0)
  {
    ConsumedInBody(WTP_RADIO_STATISTICS, m.msg[..], m.offset, elemLen);
    ghost var at := m.offset;
    ok, r := ParseRadioStatistics(m, elemLen);
    if ok {
      ReadsInBody(WTP_RADIO_STATISTICS, m.msg[..], at, elemLen);
    }
  }

  /** One turn of the second loop; k and i are the next free places of the two arrays. */
  method FillElement(m: ProtocolMessage, operational: array<OperationalStatistics>, radio: array<RadioStatistics>,
                     k: nat, i: nat, ghost done: seq<Element>, ghost rest: seq<Element>)
    returns (ok: bool, nextK: nat, nextI: nat)
    requires rest != [] && rest[0] == ElementAt(m.msg[..], m.offset)
    requires Filled(operational, radio, k, i, done, rest)
    modifies m`offset, operational, radio
    ensures ok <==> PassesSecond(rest[0])
    ensures ok ==> m.offset == old(m.offset) + Size(rest[0])
    ensures ok ==> Filled(operational, radio, nextK, nextI, done + [rest[0]], rest[1..])
  {
    ghost var e := rest[0];
    var typ, elemLen := ElementHeader(m);
    nextK, nextI := k, i;
    if typ == WTP_OPERATIONAL_STATISTICS {
      var r;
      ok, r := ReadOperational(m, elemLen, e);
      if !ok { return; }
      NotFilled(radio, i, done, rest, PickRadio);
      FillPlace(operational, k, r, done, rest, PickOperational);
      nextK := k + 1;
    } else if typ == WTP_RADIO_STATISTICS {
      var r;
      ok, r := ReadRadio(m, elemLen, e);
      if !ok { return; }
      NotFilled(operational, k, done, rest, PickOperational);
      FillPlace(radio, i, r, done, rest, PickRadio);
      nextI := i + 1;
    } else {
      NotFilled(operational, k, done, rest, PickOperational);
      NotFilled(radio, i, done, rest, PickRadio);
      m.offset := m.offset + elemLen;
      ok := true;
    }
  }

  /** The same turn, with what it does to the walk */
  method FillTurn(m: ProtocolMessage, operational: array<OperationalStatistics>, radio: array<RadioStatistics>,
                  k: nat, i: nat, ghost buf: seq<byte>, ghost start: nat, ghost len: nat,
                  ghost done: seq<Element>, ghost rest: seq<Element>, ghost seen: seq<nat>)
    returns (ok: bool, nextK: nat, nextI: nat)
    requires m.msg[..] == buf && m.offset - start < len
    requires Walking(buf, start, len, done, rest, m.offset, seen)
    requires Filled(operational, radio, k, i, done, rest)
    modifies m`offset, operational, radio
    ensures m.msg[..] == buf && rest != [] && done + rest == Visited(buf, start, len)
    ensures ok <==> PassesSecond(rest[0])
    ensures ok ==> m.offset > old(m.offset)
    ensures ok ==> Walking(buf, start, len, done + [rest[0]], rest[1..], m.offset, seen + [old(m.offset)])
    ensures ok ==> Filled(operational, radio, nextK, nextI, done + [rest[0]], rest[1..])
  {
    WalkTurns(buf, start, len, done, rest, m.offset, seen);
    ok, nextK, nextI := FillElement(m, operational, radio, k, i, done, rest);
  }

  /** The second loop writes inside the arrays, fills them, and ends where the first one did. */
  method FillEvent(m: ProtocolMessage, len: nat,
                   operational: array<OperationalStatistics>, radio: array<RadioStatistics>)
    returns (ok: bool, ghost seen: seq<nat>)
    requires var list := Visited(m.msg[..], m.offset, len);
             TotalSize(list) == len
             && operational.Length == |OperationalOf(list)| && radio.Length == |RadioOf(list)|
    modifies m`offset, operational, radio
    ensures var list := Visited(m.msg[..], old(m.offset), len);
            && (ok <==> AllPass(list, PassesSecond))
            && (ok ==> m.offset == old(m.offset) + len && seen == Boundaries(old(m.offset), list)
                       && operational[..] == OperationalOf(list) && radio[..] == RadioOf(list))
  {
    ghost var buf, start := m.msg[..], m.offset;
    ghost var done, rest := [], Visited(buf, start, len);
    var offsetTillMessages := m.offset;
    var k, i := 0, 0;
    seen := [];
    WalkStarts(buf, start, len);
    FillingStarts(operational, rest, PickOperational);
    FillingStarts(radio, rest, PickRadio);
    while m.offset - offsetTillMessages < len
      invariant m.msg[..] == buf && m.offset >= start
      invariant Walking(buf, start, len, done, rest, m.offset, seen)
      invariant Filled(operational, radio, k, i, done, rest)
      invariant AllPass(done, PassesSecond)
      decreases len - (m.offset - start)
    {
      ghost var at := m.offset;
      ok, k, i := FillTurn(m, operational, radio, k, i, buf, start, len, done, rest, seen);
      OneMorePasses(done, rest, PassesSecond);
      if !ok {
        return;
      }
      done, rest, seen := done + [rest[0]], rest[1..], seen + [at];
    }
    WalkEnds(buf, start, len, done, rest, m.offset, seen);
    FillingEnds(operational, k, done, PickOperational);
    FillingEnds(radio, i, done, PickRadio);
    ok := true;
  }

  /**
   * CWParseWTPEventRequestMessage.  `first` and `second` are the places where the two loops
   * met an element.
   */
  method ParseWTPEventRequest(m: ProtocolMessage, len: nat)
    returns (ok: bool, notes: EventNotes, operational: array<OperationalStatistics>, radio: array<RadioStatistics>,
             ghost first: seq<nat>, ghost second: seq<nat>)
    modifies m`offset
    ensures var parsed := EventIn(m.msg[..], old(m.offset), len);
            && (ok <==> parsed.Some?)
            && (ok ==> parsed == Some(EventValues(notes, operational[..], radio[..]))
                       && m.offset == old(m.offset) + len && first == second)
  {
    var offsetTillMessages := m.offset;
    ok, notes, first := CheckEvent(m, len);
    ghost var list := Visited(m.msg[..], offsetTillMessages, len);
    CountsAreLengths(list);
    AllPassIff(list, PassesFirst);
    AllPassIff(list, PassesSecond);
    operational := new OperationalStatistics[if ok then notes.operationalCount else 0];
    radio := new RadioStatistics[if ok then notes.radioCount else 0];
    second := [];
    if !ok {
      return;
    }
    m.offset := offsetTillMessages;
    ok, second := FillEvent(m, len, operational, radio);
  }

  /** Elements that stand behind each other are what the loop meets. */
  lemma {:induction false} VisitsElements(buf: seq<byte>, off: nat, es: seq<Element>)
    requires ElementsAt(buf, off, es)
    ensures Visited(buf, off, TotalSize(es)) == es
    decreases |es|
  {
    if es != [] {
      VisitsElements(buf, off + Size(es[0]), es[1..]);
      assert [es[0]] + es[1..] == es;
    }
  }

  /** A request with any list of sound elements is read back, each array holding its elements in order. */
  lemma EventRoundTrip(buf: seq<byte>, off: nat, es: seq<Element>)
    requires Holds(buf, off, ElementsBytes(es)) && FitsFields(es)
    requires forall i :: 0 <= i < |es| ==> (Single(es[i]) || Statistics(es[i])) && Wellformed(es[i])
    ensures EventIn(buf, off, |ElementsBytes(es)|) == Some(EventValues(NotesOf(es), OperationalOf(es), RadioOf(es)))
    ensures NotesOf(es).operationalCount == |OperationalOf(es)| && NotesOf(es).radioCount == |RadioOf(es)|
  {
    EncodedStandBehindEachOther(buf, off, es);
    BytesTakeTotal(es);
    VisitsElements(buf, off, es);
    CountsAreLengths(es);
  }

  /** A request is accepted exactly if its elements end where the length says, are known and well-formed. */
  lemma EventAcceptedIff(buf: seq<byte>, off: nat, len: nat)
    ensures EventIn(buf, off, len).Some? <==>
            && ReadElements(buf, off, len).Elements?
            && var list := ReadElements(buf, off, len).list;
               forall i :: 0 <= i < |list| ==> (Single(list[i]) || Statistics(list[i])) && Wellformed(list[i])
  {
    VisitedIsRead(buf, off, len);
  }
}
