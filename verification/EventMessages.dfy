/**
 * WTP Event Requests as a WTP sends them: values, the bytes that stand for each of them
 * (section 4.6 of RFC 5415), and what the two passes make of the bytes.
 */
module EventMessages {
  import opened Wire
  import opened Wrappers
  import opened ControlMessage
  import opened TwoPass

  // ---------------------------------------------------------------- one element of each kind

  function WordsBytes(words: seq<nat>): (s: seq<byte>)
    ensures |s| == 2 * |words|
  {
    if words == [] then [] else WordsBytes(Front(words)) + Put16(Last(words))
  }

  predicate AllWords(words: seq<nat>) {
    forall i :: 0 <= i < |words| ==> words[i] < 0x1_0000
  }

  lemma LastWordHeld(buf: seq<byte>, off: nat, front: seq<byte>, x: nat)
    requires x < 0x1_0000 && Holds(buf, off, front + Put16(x))
    ensures Holds(buf, off, front) && Get16(buf, off + |front|) == x
  {
    HoldsParts(buf, off, front, Put16(x));
    GetPut16(buf, off + |front|, x);
  }

  lemma OneMoreWord(buf: seq<byte>, off: nat, front: seq<nat>, x: nat)
    requires Words(buf, off, |front|) == front && Get16(buf, off + 2 * |front|) == x
    ensures Words(buf, off, |front| + 1) == front + [x]
  {
  }

  lemma AllButLast(words: seq<nat>)
    requires AllWords(words) && words != []
    ensures AllWords(Front(words)) && Last(words) < 0x1_0000 && words == Front(words) + [Last(words)]
  {
  }

  lemma {:induction false} WordsReadBack(buf: seq<byte>, off: nat, words: seq<nat>)
    requires AllWords(words) && Holds(buf, off, WordsBytes(words))
    ensures Words(buf, off, |words|) == words
    decreases |words|
  {
    if words != [] {
      var front, x := Front(words), Last(words);
      AllButLast(words);
      LastWordHeld(buf, off, WordsBytes(front), x);
      WordsReadBack(buf, off, front);
      OneMoreWord(buf, off, front, x);
    }
  }

  /** Radio, number of addresses, their length, the addresses */
  lemma DecryptErrorsReadBack(buf: seq<byte>, off: nat, radioID: nat, length: nat, macs: seq<byte>, n: nat)
    requires radioID < 256 && length < 256 && |macs| == 6 * n && n < 256
    requires Holds(buf, off, Put8(radioID) + (Put8(n) + (Put8(length) + macs)))
    ensures DecryptErrorsAt(buf, off) == DecryptErrors(radioID, n, length, macs)
    ensures Consumed(15, buf, off) == 3 + |macs|
  {
    HoldsParts(buf, off, Put8(radioID), Put8(n) + (Put8(length) + macs));
    HoldsParts(buf, off + 1, Put8(n), Put8(length) + macs);
    HoldsParts(buf, off + 2, Put8(length), macs);
    GetPut8(buf, off, radioID);
    GetPut8(buf, off + 1, n);
    GetPut8(buf, off + 2, length);
    SliceHeld(buf, off + 3, macs);
  }

  /** Radio, length, address */
  lemma DeletedStationReadBack(buf: seq<byte>, off: nat, radioID: nat, address: seq<byte>)
    requires radioID < 256 && |address| < 256
    requires Holds(buf, off, Put8(radioID) + (Put8(|address|) + address))
    ensures DeletedStationAt(buf, off) == DeletedStation(radioID, |address|, address)
    ensures Consumed(18, buf, off) == 2 + |address|
  {
    HoldsParts(buf, off, Put8(radioID), Put8(|address|) + address);
    HoldsParts(buf, off + 1, Put8(|address|), address);
    GetPut8(buf, off, radioID);
    GetPut8(buf, off + 1, |address|);
    SliceHeld(buf, off + 2, address);
  }

  /** IPv4 address, status, length, MAC address */
  lemma DuplicateIPv4ReadBack(buf: seq<byte>, off: nat, ipv4: nat, status: nat, mac: seq<byte>)
    requires ipv4 < 0x1_0000_0000 && status < 256 && |mac| < 256
    requires Holds(buf, off, Put32(ipv4) + (Put8(status) + (Put8(|mac|) + mac)))
    ensures DuplicateIPv4At(buf, off) == DuplicateIPv4(ipv4, status, |mac|, mac)
    ensures Consumed(21, buf, off) == 6 + |mac|
  {
    HoldsParts(buf, off, Put32(ipv4), Put8(status) + (Put8(|mac|) + mac));
    HoldsParts(buf, off + 4, Put8(status), Put8(|mac|) + mac);
    HoldsParts(buf, off + 5, Put8(|mac|), mac);
    GetPut32(buf, off, ipv4);
    GetPut8(buf, off + 4, status);
    GetPut8(buf, off + 5, |mac|);
    SliceHeld(buf, off + 6, mac);
  }

  /** IPv6 address, status, length, MAC address */
  lemma DuplicateIPv6ReadBack(buf: seq<byte>, off: nat, ipv6: seq<byte>, status: nat, mac: seq<byte>)
    requires |ipv6| == 16 && status < 256 && |mac| < 256
    requires Holds(buf, off, ipv6 + (Put8(status) + (Put8(|mac|) + mac)))
    ensures DuplicateIPv6At(buf, off) == DuplicateIPv6(ipv6, status, |mac|, mac)
    ensures Consumed(22, buf, off) == 18 + |mac|
  {
    HoldsParts(buf, off, ipv6, Put8(status) + (Put8(|mac|) + mac));
    HoldsParts(buf, off + 16, Put8(status), Put8(|mac|) + mac);
    HoldsParts(buf, off + 17, Put8(|mac|), mac);
    SliceHeld(buf, off, ipv6);
    GetPut8(buf, off + 16, status);
    GetPut8(buf, off + 17, |mac|);
    SliceHeld(buf, off + 18, mac);
  }

  /** Seven counters, type of the last failure */
  lemma RebootsReadBack(buf: seq<byte>, off: nat, counts: seq<nat>, lastFailureType: nat)
    requires |counts| == 7 && AllWords(counts) && lastFailureType < 256
    requires Holds(buf, off, WordsBytes(counts) + Put8(lastFailureType))
    ensures RebootsAt(buf, off) == Reboots(counts, lastFailureType) && Consumed(48, buf, off) == 15
  {
    HoldsParts(buf, off, WordsBytes(counts), Put8(lastFailureType));
    WordsReadBack(buf, off, counts);
    GetPut8(buf, off + 14, lastFailureType);
  }

  /** Radio, level of the transmission queue, frames per second */
  lemma OperationalReadBack(buf: seq<byte>, off: nat, radioID: nat, txQueueLevel: nat, framesPerSec: nat)
    requires radioID < 256 && txQueueLevel < 256 && framesPerSec < 0x1_0000
    requires Holds(buf, off, Put8(radioID) + (Put8(txQueueLevel) + Put16(framesPerSec)))
    ensures OperationalAt(buf, off) == OperationalStatistics(radioID, txQueueLevel, framesPerSec)
    ensures Consumed(46, buf, off) == 4
  {
    HoldsParts(buf, off, Put8(radioID), Put8(txQueueLevel) + Put16(framesPerSec));
    HoldsParts(buf, off + 1, Put8(txQueueLevel), Put16(framesPerSec));
    GetPut8(buf, off, radioID);
    GetPut8(buf, off + 1, txQueueLevel);
    GetPut16(buf, off + 2, framesPerSec);
  }

  /** Radio, type of the last failure, nine counters */
  lemma RadioReadBack(buf: seq<byte>, off: nat, radioID: nat, lastFailureType: nat, counts: seq<nat>)
    requires radioID < 256 && lastFailureType < 256 && |counts| == 9 && AllWords(counts)
    requires Holds(buf, off, Put8(radioID) + (Put8(lastFailureType) + WordsBytes(counts)))
    ensures RadioAt(buf, off) == RadioStatistics(radioID, lastFailureType, counts) && Consumed(47, buf, off) == 20
  {
    HoldsParts(buf, off, Put8(radioID), Put8(lastFailureType) + WordsBytes(counts));
    HoldsParts(buf, off + 1, Put8(lastFailureType), WordsBytes(counts));
    GetPut8(buf, off, radioID);
    GetPut8(buf, off + 1, lastFailureType);
    WordsReadBack(buf, off + 2, counts);
  }

  /** Radio, state, cause */
  lemma StateReadBack(buf: seq<byte>, off: nat, radioID: nat, state: nat, cause: nat)
    requires radioID < 256 && state < 256 && cause < 256
    requires Holds(buf, off, Put8(radioID) + (Put8(state) + Put8(cause)))
    ensures StateAt(buf, off) == RadioState(radioID, state, cause) && Consumed(32, buf, off) == 3
  {
    HoldsParts(buf, off, Put8(radioID), Put8(state) + Put8(cause));
    HoldsParts(buf, off + 1, Put8(state), Put8(cause));
    GetPut8(buf, off, radioID);
    GetPut8(buf, off + 1, state);
    GetPut8(buf, off + 2, cause);
  }

  /** One word */
  lemma ResultCodeReadBack(buf: seq<byte>, off: nat, code: nat)
    requires code < 0x1_0000_0000 && Holds(buf, off, Put32(code))
    ensures Get32(buf, off) == code && Consumed(33, buf, off) == 4
  {
    GetPut32(buf, off, code);
  }

  // ---------------------------------------------------------------- requests as lists of values

  /** What a WTP puts into a request */
  datatype Event =
    | Noted(report: Report)
    | Operational(operational: OperationalStatistics)
    | Radio(radio: RadioStatistics)

  function TypeOf(x: Event): nat {
    match x
    case Noted(DecryptErrors(_, _, _, _)) => 15
    case Noted(DeletedStation(_, _, _)) => 18
    case Noted(DuplicateIPv4(_, _, _, _)) => 21
    case Noted(DuplicateIPv6(_, _, _, _)) => 22
    case Noted(Reboots(_, _)) => 48
    case Operational(_) => 46
    case Radio(_) => 47
  }

  function BodyOf(x: Event): seq<byte> {
    match x
    case Noted(DecryptErrors(radioID, n, length, macs)) => Put8(radioID) + (Put8(n) + (Put8(length) + macs))
    case Noted(DeletedStation(radioID, length, address)) => Put8(radioID) + (Put8(length) + address)
    case Noted(DuplicateIPv4(ipv4, status, length, mac)) => Put32(ipv4) + (Put8(status) + (Put8(length) + mac))
    case Noted(DuplicateIPv6(ipv6, status, length, mac)) => ipv6 + (Put8(status) + (Put8(length) + mac))
    case Noted(Reboots(counts, lastFailureType)) => WordsBytes(counts) + Put8(lastFailureType)
    case Operational(r) => Put8(r.radioID) + (Put8(r.txQueueLevel) + Put16(r.framesPerSec))
    case Radio(r) => Put8(r.radioID) + (Put8(r.lastFailureType) + WordsBytes(r.counts))
  }

  /** The values fit their fields, and lengths and numbers are those of what they count. */
  predicate Sendable(x: Event) {
    match x
    case Noted(DecryptErrors(radioID, n, length, macs)) =>
      radioID < 256 && n < 256 && length < 256 && |macs| == 6 * n
    case Noted(DeletedStation(radioID, length, address)) => radioID < 256 && |address| == length < 256
    case Noted(DuplicateIPv4(ipv4, status, length, mac)) =>
      ipv4 < 0x1_0000_0000 && status < 256 && |mac| == length < 256
    case Noted(DuplicateIPv6(ipv6, status, length, mac)) => |ipv6| == 16 && status < 256 && |mac| == length < 256
    case Noted(Reboots(counts, lastFailureType)) => |counts| == 7 && AllWords(counts) && lastFailureType < 256
    case Operational(r) => r.radioID < 256 && r.txQueueLevel < 256 && r.framesPerSec < 0x1_0000
    case Radio(r) => r.radioID < 256 && r.lastFailureType < 256 && |r.counts| == 9 && AllWords(r.counts)
  }

  predicate AllSendable(xs: seq<Event>) {
    forall i :: 0 <= i < |xs| ==> Sendable(xs[i])
  }

  /** Each element is its type, the length of its body, and the body. */
  function EventBytes(xs: seq<Event>): seq<byte> {
    if xs == [] then []
    else (Put16(TypeOf(xs[0])) + Put16(|BodyOf(xs[0])|) + BodyOf(xs[0])) + EventBytes(xs[1..])
  }

  function OperationalIn(xs: seq<Event>): seq<OperationalStatistics> {
    if xs == [] then []
    else OperationalIn(Front(xs)) + if Last(xs).Operational? then [Last(xs).operational] else []
  }

  function RadioIn(xs: seq<Event>): seq<RadioStatistics> {
    if xs == [] then []
    else RadioIn(Front(xs)) + if Last(xs).Radio? then [Last(xs).radio] else []
  }

  /** The last report of a kind */
  function LastReport(xs: seq<Event>, ofKind: Report -> bool): Option<Report> {
    if xs == [] then None
    else if Last(xs).Noted? && ofKind(Last(xs).report) then Some(Last(xs).report)
    else LastReport(Front(xs), ofKind)
  }

  /** What a request with these values says: of the reports the last of each kind, of the statistics all, in order */
  function Said(xs: seq<Event>): EventValues {
    EventValues(
      EventNotes(|OperationalIn(xs)|, |RadioIn(xs)|,
                 LastReport(xs, (r: Report) => r.DecryptErrors?), LastReport(xs, (r: Report) => r.DeletedStation?),
                 LastReport(xs, (r: Report) => r.DuplicateIPv4?), LastReport(xs, (r: Report) => r.DuplicateIPv6?),
                 LastReport(xs, (r: Report) => r.Reboots?)),
      OperationalIn(xs), RadioIn(xs))
  }

  // ---- values as elements

  function AsElement(x: Event): Element {
    Element(TypeOf(x), BodyOf(x))
  }

  function AsElements(xs: seq<Event>): (es: seq<Element>)
    ensures |es| == |xs| && forall i :: 0 <= i < |xs| ==> es[i] == AsElement(xs[i])
  {
    if xs == [] then [] else [AsElement(xs[0])] + AsElements(xs[1..])
  }

  lemma HeldAtStart(body: seq<byte>)
    ensures Holds(body, 0, body)
  {
  }

  /** The parser of its type reads a value from its body, and takes all of it. */
  lemma BodyRead(x: Event)
    requires Sendable(x)
    ensures Wellformed(AsElement(x)) && |BodyOf(x)| < 0x1_0000
    ensures match x
            case Noted(DecryptErrors(_, _, _, _)) => DecryptErrorsAt(BodyOf(x), 0) == x.report
            case Noted(DeletedStation(_, _, _)) => DeletedStationAt(BodyOf(x), 0) == x.report
            case Noted(DuplicateIPv4(_, _, _, _)) => DuplicateIPv4At(BodyOf(x), 0) == x.report
            case Noted(DuplicateIPv6(_, _, _, _)) => DuplicateIPv6At(BodyOf(x), 0) == x.report
            case Noted(Reboots(_, _)) => RebootsAt(BodyOf(x), 0) == x.report
            case Operational(r) => OperationalAt(BodyOf(x), 0) == r
            case Radio(r) => RadioAt(BodyOf(x), 0) == r
  {
    HeldAtStart(BodyOf(x));
    match x
    case Noted(DecryptErrors(radioID, n, length, macs)) =>
      DecryptErrorsReadBack(BodyOf(x), 0, radioID, length, macs, n);
    case Noted(DeletedStation(radioID, _, address)) => DeletedStationReadBack(BodyOf(x), 0, radioID, address);
    case Noted(DuplicateIPv4(ipv4, status, _, mac)) => DuplicateIPv4ReadBack(BodyOf(x), 0, ipv4, status, mac);
    case Noted(DuplicateIPv6(ipv6, status, _, mac)) => DuplicateIPv6ReadBack(BodyOf(x), 0, ipv6, status, mac);
    case Noted(Reboots(counts, lastFailureType)) => RebootsReadBack(BodyOf(x), 0, counts, lastFailureType);
    case Operational(r) => OperationalReadBack(BodyOf(x), 0, r.radioID, r.txQueueLevel, r.framesPerSec);
    case Radio(r) => RadioReadBack(BodyOf(x), 0, r.radioID, r.lastFailureType, r.counts);
  }

  lemma {:induction false} EventBytesAreElements(xs: seq<Event>)
    ensures EventBytes(xs) == ElementsBytes(AsElements(xs))
  {
    if xs != [] { EventBytesAreElements(xs[1..]); }
  }

  lemma FrontAsElements(xs: seq<Event>)
    requires xs != []
    ensures Front(AsElements(xs)) == AsElements(Front(xs)) && Last(AsElements(xs)) == AsElement(Last(xs))
  {
  }

  lemma NoteOfEvent(n: EventNotes, x: Event)
    requires Sendable(x)
    ensures Note(n, AsElement(x)) ==
            match x
            case Noted(DecryptErrors(_, _, _, _)) => n.(errorReport := Some(x.report))
            case Noted(DeletedStation(_, _, _)) => n.(deletedStation := Some(x.report))
            case Noted(DuplicateIPv4(_, _, _, _)) => n.(duplicateIPv4 := Some(x.report))
            case Noted(DuplicateIPv6(_, _, _, _)) => n.(duplicateIPv6 := Some(x.report))
            case Noted(Reboots(_, _)) => n.(reboots := Some(x.report))
            case Operational(_) => n.(operationalCount := n.operationalCount + 1)
            case Radio(_) => n.(radioCount := n.radioCount + 1)
  {
    BodyRead(x);
  }

  lemma {:induction false} NotesAreSaid(xs: seq<Event>)
    requires AllSendable(xs)
    ensures NotesOf(AsElements(xs)) == Said(xs).notes
    decreases |xs|
  {
    if xs != [] {
      FrontAsElements(xs);
      NotesAreSaid(Front(xs));
      NoteOfEvent(NotesOf(AsElements(Front(xs))), Last(xs));
    }
  }

  lemma {:induction false} StatisticsAreSaid(xs: seq<Event>)
    requires AllSendable(xs)
    ensures OperationalOf(AsElements(xs)) == OperationalIn(xs) && RadioOf(AsElements(xs)) == RadioIn(xs)
    decreases |xs|
  {
    if xs != [] {
      FrontAsElements(xs);
      StatisticsAreSaid(Front(xs));
      BodyRead(Last(xs));
    }
  }

  /** A request with any list of values is accepted and says just these values. */
  lemma ValuesReadBack(buf: seq<byte>, off: nat, xs: seq<Event>)
    requires AllSendable(xs) && Holds(buf, off, EventBytes(xs))
    ensures EventIn(buf, off, |EventBytes(xs)|) == Some(Said(xs))
  {
    var es := AsElements(xs);
    EventBytesAreElements(xs);
    forall i | 0 <= i < |es|
      ensures (Single(es[i]) || Statistics(es[i])) && Wellformed(es[i])
      ensures 0 <= es[i].typ < 0x1_0000 && |es[i].body| < 0x1_0000
    {
      BodyRead(xs[i]);
    }
    NotesAreSaid(xs);
    StatisticsAreSaid(xs);
    EventRoundTrip(buf, off, es);
  }

  // ---------------------------------------------------------------- nothing else is accepted

  /** The value that a sound element stands for */
  function ValueOf(e: Element): Event {
    if e.typ == 15 then Noted(DecryptErrorsAt(e.body, 0))
    else if e.typ == 18 then Noted(DeletedStationAt(e.body, 0))
    else if e.typ == 21 then Noted(DuplicateIPv4At(e.body, 0))
    else if e.typ == 22 then Noted(DuplicateIPv6At(e.body, 0))
    else if e.typ == 48 then Noted(RebootsAt(e.body, 0))
    else if e.typ == 46 then Operational(OperationalAt(e.body, 0))
    else Radio(RadioAt(e.body, 0))
  }

  lemma Bytes8(body: seq<byte>, at: nat)
    requires at < |body|
    ensures Put8(Get8(body, at)) == body[at..at + 1]
  {
  }

  lemma Bytes16(body: seq<byte>, at: nat)
    requires at + 2 <= |body|
    ensures Put16(Get16(body, at)) == body[at..at + 2]
  {
  }

  lemma Bytes32(body: seq<byte>, at: nat)
    requires at + 4 <= |body|
    ensures Put32(Get32(body, at)) == body[at..at + 4]
  {
    Bytes16(body, at);
    Bytes16(body, at + 2);
    HalvesOfWord(Get16(body, at), Get16(body, at + 2));
    assert body[at..at + 4] == body[at..at + 2] + body[at + 2..at + 4];
  }

  lemma HalvesOfWord(high: nat, low: nat)
    requires high < 0x1_0000 && low < 0x1_0000
    ensures Put32(high * 0x1_0000 + low) == Put16(high) + Put16(low)
  {
    var w := high * 0x1_0000 + low;
    assert w / 0x1_0000 == high;
    assert w / 0x100 == high * 0x100 + low / 0x100;
  }

  lemma {:induction false} BytesOfWords(body: seq<byte>, at: nat, n: nat)
    requires at + 2 * n <= |body|
    ensures WordsBytes(Words(body, at, n)) == body[at..at + 2 * n] && AllWords(Words(body, at, n))
  {
    if n > 0 {
      BytesOfWords(body, at, n - 1);
      Bytes16(body, at + 2 * (n - 1));
      assert Front(Words(body, at, n)) == Words(body, at, n - 1);
      assert body[at..at + 2 * n] == body[at..at + 2 * (n - 1)] + body[at + 2 * (n - 1)..at + 2 * n];
    }
  }

  lemma RangeRead(body: seq<byte>, at: nat)
    requires at <= |body|
    ensures Slice(body, at, |body| - at) == body[at..]
  {
  }

  lemma FourPieces(b: seq<byte>, i: nat, j: nat, k: nat, p: seq<byte>, q: seq<byte>, r: seq<byte>, t: seq<byte>)
    requires i <= j <= k <= |b| && p == b[0..i] && q == b[i..j] && r == b[j..k] && t == b[k..]
    ensures p + (q + (r + t)) == b
  {
  }

  // A body that its parser takes whole is that of the value it reads

  lemma DecryptErrorsSent(b: seq<byte>)
    requires Consumed(15, b, 0) == |b|
    ensures Sendable(Noted(DecryptErrorsAt(b, 0))) && BodyOf(Noted(DecryptErrorsAt(b, 0))) == b
  {
    Bytes8(b, 0);
    Bytes8(b, 1);
    Bytes8(b, 2);
    RangeRead(b, 3);
    FourPieces(b, 1, 2, 3, Put8(Get8(b, 0)), Put8(Get8(b, 1)), Put8(Get8(b, 2)), Slice(b, 3, |b| - 3));
  }

  lemma DeletedStationSent(b: seq<byte>)
    requires Consumed(18, b, 0) == |b|
    ensures Sendable(Noted(DeletedStationAt(b, 0))) && BodyOf(Noted(DeletedStationAt(b, 0))) == b
  {
    Bytes8(b, 0);
    Bytes8(b, 1);
    RangeRead(b, 2);
    assert b == b[0..1] + (b[1..2] + b[2..]);
  }

  lemma DuplicateIPv4Sent(b: seq<byte>)
    requires Consumed(21, b, 0) == |b|
    ensures Sendable(Noted(DuplicateIPv4At(b, 0))) && BodyOf(Noted(DuplicateIPv4At(b, 0))) == b
  {
    Bytes32(b, 0);
    Bytes8(b, 4);
    Bytes8(b, 5);
    RangeRead(b, 6);
    FourPieces(b, 4, 5, 6, Put32(Get32(b, 0)), Put8(Get8(b, 4)), Put8(Get8(b, 5)), Slice(b, 6, |b| - 6));
  }

  lemma DuplicateIPv6Sent(b: seq<byte>)
    requires Consumed(22, b, 0) == |b|
    ensures Sendable(Noted(DuplicateIPv6At(b, 0))) && BodyOf(Noted(DuplicateIPv6At(b, 0))) == b
  {
    SliceIsRange(b, 0, 16);
    Bytes8(b, 16);
    Bytes8(b, 17);
    RangeRead(b, 18);
    FourPieces(b, 16, 17, 18, Slice(b, 0, 16), Put8(Get8(b, 16)), Put8(Get8(b, 17)), Slice(b, 18, |b| - 18));
  }

  lemma RebootsSent(b: seq<byte>)
    requires Consumed(48, b, 0) == |b|
    ensures Sendable(Noted(RebootsAt(b, 0))) && BodyOf(Noted(RebootsAt(b, 0))) == b
  {
    BytesOfWords(b, 0, 7);
    Bytes8(b, 14);
    assert b == b[0..14] + b[14..15];
  }

  lemma OperationalSent(b: seq<byte>)
    requires Consumed(46, b, 0) == |b|
    ensures Sendable(Operational(OperationalAt(b, 0))) && BodyOf(Operational(OperationalAt(b, 0))) == b
  {
    Bytes8(b, 0);
    Bytes8(b, 1);
    Bytes16(b, 2);
    assert b == b[0..1] + (b[1..2] + b[2..4]);
  }

  lemma RadioSent(b: seq<byte>)
    requires Consumed(47, b, 0) == |b|
    ensures Sendable(Radio(RadioAt(b, 0))) && BodyOf(Radio(RadioAt(b, 0))) == b
  {
    Bytes8(b, 0);
    Bytes8(b, 1);
    BytesOfWords(b, 2, 9);
    assert b == b[0..1] + (b[1..2] + b[2..20]);
  }

  /** A sound element is what is sent for some value. */
  lemma SoundIsSent(e: Element)
    requires (Single(e) || Statistics(e)) && Wellformed(e)
    ensures Sendable(ValueOf(e)) && AsElement(ValueOf(e)) == e
  {
    if e.typ == 15 {
      DecryptErrorsSent(e.body);
    } else if e.typ == 18 {
      DeletedStationSent(e.body);
    } else if e.typ == 21 {
      DuplicateIPv4Sent(e.body);
    } else if e.typ == 22 {
      DuplicateIPv6Sent(e.body);
    } else if e.typ == 48 {
      RebootsSent(e.body);
    } else if e.typ == 46 {
      OperationalSent(e.body);
    } else if e.typ == 47 {
      RadioSent(e.body);
    }
  }

  function ValuesOf(es: seq<Element>): (xs: seq<Event>)
    ensures |xs| == |es| && forall i :: 0 <= i < |es| ==> xs[i] == ValueOf(es[i])
  {
    if es == [] then [] else [ValueOf(es[0])] + ValuesOf(es[1..])
  }

  lemma ElementIsBytes(buf: seq<byte>, off: nat)
    requires off + Size(ElementAt(buf, off)) <= |buf|
    ensures ElementBytes(ElementAt(buf, off)) == buf[off..off + Size(ElementAt(buf, off))]
  {
    var e := ElementAt(buf, off);
    Bytes16(buf, off);
    Bytes16(buf, off + 2);
    SliceIsRange(buf, off + 4, |e.body|);
    assert buf[off..off + Size(e)] == buf[off..off + 2] + buf[off + 2..off + 4] + buf[off + 4..off + Size(e)];
  }

  lemma FirstOfElements(e: Element, rest: Elements)
    requires Prepend(e, rest).Elements?
    ensures rest.Elements? && ElementsBytes(Prepend(e, rest).list) == ElementBytes(e) + ElementsBytes(rest.list)
  {
    assert ([e] + rest.list)[1..] == rest.list;
  }

  /** Elements that are read are the bytes they are read from. */
  lemma {:induction false} ReadAreBytes(buf: seq<byte>, off: nat, len: nat)
    requires off + len <= |buf| && ReadElements(buf, off, len).Elements?
    ensures ElementsBytes(ReadElements(buf, off, len).list) == buf[off..off + len]
    decreases len
  {
    if len > 0 {
      var e := ElementAt(buf, off);
      var rest := ReadElements(buf, off + Size(e), len - Size(e));
      ReadStep(buf, off, len, e, rest);
      FirstOfElements(e, rest);
      ReadAreBytes(buf, off + Size(e), len - Size(e));
      ElementIsBytes(buf, off);
      TwoPieces(buf, off, off + Size(e), off + len);
    }
  }

  lemma TwoPieces(b: seq<byte>, i: nat, j: nat, k: nat)
    requires i <= j <= k <= |b|
    ensures b[i..k] == b[i..j] + b[j..k]
  {
  }

  /** Accepted elements are sent for some values. */
  lemma AcceptedIsSent(buf: seq<byte>, off: nat, len: nat) returns (xs: seq<Event>)
    requires off + len <= |buf| && EventIn(buf, off, len).Some?
    ensures AllSendable(xs) && EventBytes(xs) == buf[off..off + len]
  {
    EventAcceptedIff(buf, off, len);
    var es := ReadElements(buf, off, len).list;
    xs := ValuesOf(es);
    forall i | 0 <= i < |es| ensures Sendable(xs[i]) && AsElement(xs[i]) == es[i] { SoundIsSent(es[i]); }
    assert AsElements(xs) == es;
    EventBytesAreElements(xs);
    ReadAreBytes(buf, off, len);
  }

  lemma SentIsHeld(buf: seq<byte>, off: nat, len: nat, bytes: seq<byte>)
    requires off + len <= |buf| && bytes == buf[off..off + len]
    ensures |bytes| == len && Holds(buf, off, bytes)
  {
  }

  /** The bytes are what is sent for some list of values. */
  ghost predicate SentForSome(bytes: seq<byte>) {
    exists xs :: AllSendable(xs) && EventBytes(xs) == bytes
  }

  /** A request inside its buffer is accepted exactly if its bytes are what is sent for some list of values. */
  lemma AcceptedIffSent(buf: seq<byte>, off: nat, len: nat)
    requires off + len <= |buf|
    ensures EventIn(buf, off, len).Some? <==> SentForSome(buf[off..off + len])
  {
    if EventIn(buf, off, len).Some? {
      var xs := AcceptedIsSent(buf, off, len);
    } else if SentForSome(buf[off..off + len]) {
      var xs :| AllSendable(xs) && EventBytes(xs) == buf[off..off + len];
      SentIsHeld(buf, off, len, EventBytes(xs));
      ValuesReadBack(buf, off, xs);
    }
  }
}
