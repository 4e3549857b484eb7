/**
 * The association response that the access controller assembles for a station, parses back,
 * and turns into an IEEE 802.11 Station message element.
 *
 * Frame fields of two bytes are copied from and to memory, here in little-endian order; short
 * integers are their 16 bits, as a number below 65536.
 */
module AssocResponse {
  import opened Bits
  import opened Wire
  import opened ControlMessage

  const IE_TYPE_SUPP_RATES := 1
  const CW_80211_MAX_SUPP_RATES := 8
  const FRAME_CONTROL_ASSOC_RESP := 0x10
  const FIXED_LEN := 30
  const FRAME_LEN := 41 // 30 fixed bytes, 2 of the rates element, 8 rates, and one more
  const STATION_ELEMENT := 1036

  type Short = v: nat | v < 0x1_0000

  function PutLE16(v: Short): (s: seq<byte>)
    ensures |s| == 2
  {
    [v % 0x100, v / 0x100]
  }

  function GetLE16(buf: seq<byte>, off: nat): Short {
    ByteAt(buf, off) + 0x100 * ByteAt(buf, off + 1)
  }

  // ---------------------------------------------------------------- the association identifier

  /** The value that goes into the frame: bits 14 and 15 are set. */
  function FrameAID(aid: Short): nat {
    Or(Or(aid, 0x4000), 0x8000)
  }

  /** What is subtracted again when the value is taken from the frame, in 16 bits */
  function RestoredAID(value: Short): Short {
    (value - 49152) % 0x1_0000
  }

  /** Combining v with bits that are k places up leaves the k low bits alone. */
  lemma {:induction false} OrAbove(v: nat, c: nat, k: nat)
    ensures Or(v, Shl(c, k)) == Low(v, k) + Shl(Or(Shr(v, k), c), k)
    decreases k
  {
    if k > 0 { OrAbove(v / 2, c, k - 1); }
  }

  lemma {:induction false} ShrBound(v: nat, k: nat, b: nat)
    requires v < Shl(b, k)
    ensures Shr(v, k) < b
    decreases k
  {
    if k > 0 { ShrBound(v / 2, k - 1, b); }
  }

  lemma OrAssociates(a: nat, b: nat, c: nat)
    ensures Or(Or(a, b), c) == Or(a, Or(b, c))
  {
    forall i: nat ensures Bit(Or(Or(a, b), c), i) <==> Bit(Or(a, Or(b, c)), i) {
      BitOfOr(Or(a, b), c, i);
      BitOfOr(a, b, i);
      BitOfOr(a, Or(b, c), i);
      BitOfOr(b, c, i);
    }
    SameBits(Or(Or(a, b), c), Or(a, Or(b, c)));
  }

  lemma TopBits(top: nat)
    requires top < 4
    ensures Or(top, 3) == 3
  {
    assert Or(0, 1) == 1 && Or(1, 1) == 1;
    assert Or(top, 3) == if top == 0 then 3 else 1 + 2 * Or(top / 2, 1);
  }

  lemma BothBits()
    ensures Or(0x4000, 0x8000) == Shl(3, 14)
  {
    assert Shl(1, 14) == 0x4000 && Shl(2, 14) == 0x8000;
    OrAbove(Shl(1, 14), 2, 14);
    ShlBack(1, 14);
    assert Or(1, 2) == 3 by { assert Or(0, 1) == 1; }
  }

  lemma {:induction false} ShlBack(c: nat, k: nat)
    ensures Low(Shl(c, k), k) == 0 && Shr(Shl(c, k), k) == c
    decreases k
  {
    if k > 0 { ShlBack(c, k - 1); }
  }

  lemma FourteenPlaces()
    ensures Pow2(14) == 0x4000 && Shl(3, 14) == 0xC000 && Shl(4, 14) == 0x1_0000
  {
  }

  /** The frame carries the 14 low bits of the identifier below two bits that are set. */
  lemma FrameAIDIs(aid: Short)
    ensures FrameAID(aid) == aid % 0x4000 + 0xC000
  {
    OrAssociates(aid, 0x4000, 0x8000);
    BothBits();
    OrAbove(aid, 3, 14);
    FourteenPlaces();
    ShrBound(aid, 14, 4);
    TopBits(Shr(aid, 14));
    LowIsRemainder(aid, 14);
  }

  lemma RestoredFrom(aid: Short, value: nat)
    requires value == aid % 0x4000 + 0xC000
    ensures value < 0x1_0000 && RestoredAID(value) == aid % 0x4000
    ensures RestoredAID(value) == aid <==> aid < 0x4000
  {
  }

  /** Setting the two bits and subtracting them again restores the identifier exactly if it has 14 bits. */
  lemma AIDRestoredIff(aid: Short)
    ensures FrameAID(aid) < 0x1_0000
    ensures RestoredAID(FrameAID(aid)) == aid % 0x4000
    ensures RestoredAID(FrameAID(aid)) == aid <==> aid < 0x4000
  {
    FrameAIDIs(aid);
    RestoredFrom(aid, FrameAID(aid));
  }

  // ---------------------------------------------------------------- the frame

  datatype Response = Response(
    frameControl: Short, duration: Short, da: Mac, sa: Mac, bssid: Mac,
    seqCtrl: Short, capability: Short, status: Short, assID: Short, rates: seq<byte>)

  /** `Fault` stands for a copy of a negative number of bytes. */
  datatype Parsed = Refused | Fault | Accepted(response: Response)

  function HeadBytes(da: Mac, sa: Mac, bssid: Mac): (s: seq<byte>)
    ensures |s| == 22
  {
    PutLE16(FRAME_CONTROL_ASSOC_RESP) + PutLE16(0) + da + sa + bssid
  }

  function TailBytes(capability: Short, assID: Short): (s: seq<byte>)
    ensures |s| == 8
  {
    PutLE16(0) + PutLE16(capability) + PutLE16(0) + PutLE16(assID)
  }

  function RatesBytes(rates: seq<byte>): (s: seq<byte>)
    requires |rates| <= CW_80211_MAX_SUPP_RATES
    ensures rates != [] ==> |s| == 2 + |rates|
  {
    if rates == [] then [] else [IE_TYPE_SUPP_RATES, |rates|] + rates
  }

  /** What is assembled for a station: a fixed part, and the rates unless there are none */
  function ResponseBytes(da: Mac, sa: Mac, bssid: Mac, capability: Short, aid: Short, rates: seq<byte>)
    : seq<byte>
    requires |rates| <= CW_80211_MAX_SUPP_RATES
  {
    FrameAIDIs(aid);
    HeadBytes(da, sa, bssid) + TailBytes(capability, FrameAID(aid)) + RatesBytes(rates)
  }

  function Zeros(n: nat): (s: seq<byte>)
    ensures |s| == n && forall i :: 0 <= i < n ==> s[i] == 0
  {
    seq(n, _ => 0)
  }

  /** Behind the offset the buffer holds the zeros it was allocated with. */
  ghost predicate ZerosBehind(m: ProtocolMessage)
    reads m, m.msg
  {
    m.offset <= m.msg.Length && m.msg[m.offset..] == Zeros(m.msg.Length - m.offset)
  }

  lemma FewerZeros(n: nat, k: nat)
    requires k <= n
    ensures Zeros(n)[k..] == Zeros(n - k) && Zeros(n)[..k] == Zeros(k)
  {
  }

  method Append(m: ProtocolMessage, bytes: seq<byte>)
    requires ZerosBehind(m) && m.offset + |bytes| <= m.msg.Length
    modifies m`offset, m.msg
    ensures ZerosBehind(m) && m.offset == old(m.offset) + |bytes| && m.Written() == old(m.Written()) + bytes
  {
    FewerZeros(m.msg.Length - m.offset, |bytes|);
    m.StoreRawBytes(bytes);
  }

  /** Leaves room, which is filled with zeros already. */
  method SkipSequenceControl(m: ProtocolMessage)
    requires ZerosBehind(m) && m.offset + 2 <= m.msg.Length
    modifies m`offset
    ensures ZerosBehind(m) && m.offset == old(m.offset) + 2 && m.Written() == old(m.Written()) + PutLE16(0)
  {
    FewerZeros(m.msg.Length - m.offset, 2);
    assert PutLE16(0) == Zeros(2) == m.msg[m.offset..][..2];
    m.offset := m.offset + 2;
  }

  method StoreHead(m: ProtocolMessage, da: Mac, sa: Mac, bssid: Mac)
    requires m.offset == 0 && m.msg.Length == FRAME_LEN && ZerosBehind(m)
    modifies m`offset, m.msg
    ensures ZerosBehind(m) && m.offset == 22 && m.Written() == HeadBytes(da, sa, bssid)
  {
    Append(m, PutLE16(FRAME_CONTROL_ASSOC_RESP));
    Append(m, PutLE16(0));
    Append(m, da);
    Append(m, sa);
    Append(m, bssid);
  }

  method StoreTail(m: ProtocolMessage, capability: Short, aid: Short)
    requires m.offset == 22 && m.msg.Length == FRAME_LEN && ZerosBehind(m)
    modifies m`offset, m.msg
    ensures ZerosBehind(m) && m.offset == FIXED_LEN && FrameAID(aid) < 0x1_0000
    ensures m.Written() == old(m.Written()) + TailBytes(capability, FrameAID(aid))
  {
    FrameAIDIs(aid);
    SkipSequenceControl(m);
    Append(m, PutLE16(capability));
    Append(m, PutLE16(0));
    var value := Or(aid, 0x4000);
    value := Or(value, 0x8000);
    Append(m, PutLE16(value));
  }

  method StoreRates(m: ProtocolMessage, rates: seq<byte>)
    requires |rates| <= CW_80211_MAX_SUPP_RATES && m.offset == FIXED_LEN && m.msg.Length == FRAME_LEN
    requires ZerosBehind(m)
    modifies m`offset, m.msg
    ensures ZerosBehind(m) && m.Written() == old(m.Written()) + RatesBytes(rates)
  {
    if |rates| > 0 {
      Append(m, [IE_TYPE_SUPP_RATES]);
      Append(m, [|rates|]);
      Append(m, rates);
    }
  }

  /**
   * CW80211AssembleAssociationResponseAC: `da` is the station the request came from, and the
   * caller passes at most as many rates as the buffer has room for.
   */
  method AssembleAssociationResponse(da: Mac, sa: Mac, bssid: Mac,
                                     capability: Short, aid: Short, rates: seq<byte>)
    returns (m: ProtocolMessage)
    requires |rates| <= CW_80211_MAX_SUPP_RATES
    ensures fresh(m) && fresh(m.msg) && m.offset <= m.msg.Length == FRAME_LEN
    ensures m.Written() == ResponseBytes(da, sa, bssid, capability, aid, rates)
    ensures m.msg[m.offset..] == Zeros(FRAME_LEN - m.offset)
  {
    m := new ProtocolMessage(FRAME_LEN);
    assert m.msg[0..] == Zeros(FRAME_LEN);
    StoreHead(m, da, sa, bssid);
    StoreTail(m, capability, aid);
    StoreRates(m, rates);
  }

  // ---------------------------------------------------------------- parsing

  function AddressAt(buf: seq<byte>, off: nat): Mac {
    Slice(buf, off, 6)
  }

  /** The fixed part, with the rates still to come */
  function FixedAt(buf: seq<byte>, rates: seq<byte>): Response {
    Response(GetLE16(buf, 0), GetLE16(buf, 2), AddressAt(buf, 4), AddressAt(buf, 10), AddressAt(buf, 16),
             GetLE16(buf, 22), GetLE16(buf, 24), GetLE16(buf, 26), GetLE16(buf, 28), rates)
  }

  /**
   * What the frame says.  The length of the rates is read as a signed byte; the copy of minus
   * one bytes is not refused, because its allocation of no bytes succeeds.
   */
  function ParsedResponse(buf: seq<byte>): Parsed {
    var len := Get8(buf, FIXED_LEN + 1);
    if Get8(buf, FIXED_LEN) != IE_TYPE_SUPP_RATES || len == 0 then Refused
    else if len < 0x80 then Accepted(FixedAt(buf, Slice(buf, FIXED_LEN + 2, len)))
    else if len == 0xFF then Fault
    else Refused
  }

  method RetrieveLE16(m: ProtocolMessage) returns (v: Short)
    modifies m`offset
    ensures m.offset == old(m.offset) + 2 && v == GetLE16(m.msg[..], old(m.offset))
  {
    var low: nat := m.Retrieve8();
    var high: nat := m.Retrieve8();
    v := low + 0x100 * high;
  }

  method RetrieveAddress(m: ProtocolMessage) returns (a: Mac)
    modifies m`offset
    ensures m.offset == old(m.offset) + 6 && a == AddressAt(m.msg[..], old(m.offset))
  {
    a := m.RetrieveRawBytes(6);
  }

  /** CW80211ParseFrameIESupportedRates; a fault ends the parse like a refusal, and is told apart here. */
  method ParseSupportedRates(m: ProtocolMessage) returns (ok: bool, fault: bool, rates: seq<byte>)
    requires m.offset == FIXED_LEN
    modifies m`offset
    ensures match ParsedResponse(m.msg[..])
            case Refused => !ok && !fault
            case Fault => !ok && fault
            case Accepted(r) => ok && !fault && rates == r.rates
  {
    ok, fault, rates := false, false, [];
    var typ := m.Retrieve8();
    if typ != IE_TYPE_SUPP_RATES {
      return;
    }
    var b: int := m.Retrieve8();
    var len: int := if b < 0x80 then b else b - 0x100;
    if len == 0 {
      return;
    }
    if len + 1 < 0 {
      return;
    }
    if len < 0 {
      fault := true;
      return;
    }
    rates := m.RetrieveRawBytes(len);
    ok := true;
  }

  /** CW80211ParseAssociationResponse */
  method ParseAssociationResponse(m: ProtocolMessage) returns (p: Parsed)
    requires m.offset == 0
    modifies m`offset
    ensures p == ParsedResponse(m.msg[..])
  {
    var frameControl := RetrieveLE16(m);
    var duration := RetrieveLE16(m);
    var da := RetrieveAddress(m);
    var sa := RetrieveAddress(m);
    var bssid := RetrieveAddress(m);
    var seqCtrl := RetrieveLE16(m);
    var capability := RetrieveLE16(m);
    var status := RetrieveLE16(m);
    var assID := RetrieveLE16(m);
    var ok, fault, rates := ParseSupportedRates(m);
    if !ok {
      return if fault then Fault else Refused;
    }
    p := Accepted(Response(frameControl, duration, da, sa, bssid, seqCtrl, capability, status, assID, rates));
  }

  // ---------------------------------------------------------------- round trip

  lemma GetPutLE16(buf: seq<byte>, off: nat, v: Short)
    requires Holds(buf, off, PutLE16(v))
    ensures GetLE16(buf, off) == v
  {
    assert buf[off..off + 2][0] == buf[off] && buf[off..off + 2][1] == buf[off + 1];
  }

  lemma HeadReadBack(buf: seq<byte>, da: Mac, sa: Mac, bssid: Mac)
    requires Holds(buf, 0, HeadBytes(da, sa, bssid))
    ensures GetLE16(buf, 0) == FRAME_CONTROL_ASSOC_RESP && GetLE16(buf, 2) == 0
    ensures AddressAt(buf, 4) == da && AddressAt(buf, 10) == sa && AddressAt(buf, 16) == bssid
  {
    var a, b := PutLE16(FRAME_CONTROL_ASSOC_RESP), PutLE16(0);
    HoldsParts(buf, 0, a + b + da + sa, bssid);
    HoldsParts(buf, 0, a + b + da, sa);
    HoldsParts(buf, 0, a + b, da);
    HoldsParts(buf, 0, a, b);
    GetPutLE16(buf, 0, FRAME_CONTROL_ASSOC_RESP);
    GetPutLE16(buf, 2, 0);
    SliceHeld(buf, 4, da);
    SliceHeld(buf, 10, sa);
    SliceHeld(buf, 16, bssid);
  }

  lemma TailReadBack(buf: seq<byte>, off: nat, capability: Short, assID: Short)
    requires Holds(buf, off, TailBytes(capability, assID))
    ensures GetLE16(buf, off) == 0 && GetLE16(buf, off + 2) == capability
    ensures GetLE16(buf, off + 4) == 0 && GetLE16(buf, off + 6) == assID
  {
    var a, b, c, d := PutLE16(0), PutLE16(capability), PutLE16(0), PutLE16(assID);
    HoldsParts(buf, off, a + b + c, d);
    HoldsParts(buf, off, a + b, c);
    HoldsParts(buf, off, a, b);
    GetPutLE16(buf, off, 0);
    GetPutLE16(buf, off + 2, capability);
    GetPutLE16(buf, off + 4, 0);
    GetPutLE16(buf, off + 6, assID);
  }

  lemma RatesReadBack(buf: seq<byte>, off: nat, rates: seq<byte>)
    requires 0 < |rates| <= CW_80211_MAX_SUPP_RATES && Holds(buf, off, RatesBytes(rates))
    ensures Get8(buf, off) == IE_TYPE_SUPP_RATES && Get8(buf, off + 1) == |rates|
    ensures Slice(buf, off + 2, |rates|) == rates
  {
    var header: seq<byte> := [IE_TYPE_SUPP_RATES, |rates|];
    HoldsParts(buf, off, header, rates);
    assert buf[off..off + 2] == header && buf[off..off + 2][0] == buf[off] && buf[off..off + 2][1] == buf[off + 1];
    SliceHeld(buf, off + 2, rates);
  }

  lemma ThreeParts(a: seq<byte>, b: seq<byte>, c: seq<byte>, rest: seq<byte>)
    ensures var buf := a + b + c + rest;
            Holds(buf, 0, a) && Holds(buf, |a|, b) && Holds(buf, |a| + |b|, c)
  {
    assert (a + b + c + rest)[..|a + b + c|] == a + b + c;
    HoldsParts(a + b + c + rest, 0, a + b, c);
    HoldsParts(a + b + c + rest, 0, a, b);
  }

  lemma FixedReadBack(buf: seq<byte>, da: Mac, sa: Mac, bssid: Mac, capability: Short, assID: Short, rates: seq<byte>)
    requires Holds(buf, 0, HeadBytes(da, sa, bssid)) && Holds(buf, 22, TailBytes(capability, assID))
    ensures FixedAt(buf, rates) == Response(FRAME_CONTROL_ASSOC_RESP, 0, da, sa, bssid, 0, capability, 0, assID, rates)
  {
    HeadReadBack(buf, da, sa, bssid);
    TailReadBack(buf, 22, capability, assID);
  }

  /** Any frame of the three parts, filled up with zeros */
  lemma FrameReadBack(da: Mac, sa: Mac, bssid: Mac, capability: Short, assID: Short, rates: seq<byte>)
    requires |rates| <= CW_80211_MAX_SUPP_RATES
    ensures var frame := HeadBytes(da, sa, bssid) + TailBytes(capability, assID) + RatesBytes(rates);
            ParsedResponse(frame + Zeros(FRAME_LEN - |frame|)) ==
              if rates == [] then Refused
              else Accepted(Response(FRAME_CONTROL_ASSOC_RESP, 0, da, sa, bssid, 0, capability, 0, assID, rates))
  {
    var head, tail, last := HeadBytes(da, sa, bssid), TailBytes(capability, assID), RatesBytes(rates);
    var frame := head + tail + last;
    var buf := frame + Zeros(FRAME_LEN - |frame|);
    ThreeParts(head, tail, last, Zeros(FRAME_LEN - |frame|));
    if rates != [] {
      RatesReadBack(buf, FIXED_LEN, rates);
      FixedReadBack(buf, da, sa, bssid, capability, assID, rates);
    } else {
      assert buf[FIXED_LEN] == 0;
    }
  }

  /**
   * The frame assembled for any identifier is accepted exactly if there are rates, and then
   * gives back the addresses, the capability and the rates; the identifier it carries, less
   * 49152 in 16 bits, is the one it was assembled for exactly if that is below 2^14.
   */
  lemma ResponseRoundTrip(
      da: Mac, sa: Mac, bssid: Mac, capability: Short, aid: Short, rates: seq<byte>)
    requires |rates| <= CW_80211_MAX_SUPP_RATES
    ensures FrameAID(aid) < 0x1_0000
    ensures var frame := ResponseBytes(da, sa, bssid, capability, aid, rates);
            var p := ParsedResponse(frame + Zeros(FRAME_LEN - |frame|));
            && (p.Accepted? <==> rates != [])
            && (p.Accepted? ==>
                  && p.response == Response(FRAME_CONTROL_ASSOC_RESP, 0, da, sa, bssid, 0, capability, 0,
                                            FrameAID(aid), rates)
                  && RestoredAID(p.response.assID) == aid % 0x4000
                  && (RestoredAID(p.response.assID) == aid <==> aid < 0x4000))
            && (!p.Accepted? ==> p == Refused)
  {
    AIDRestoredIff(aid);
    FrameReadBack(da, sa, bssid, capability, FrameAID(aid), rates);
  }

  // ---------------------------------------------------------------- byte by byte

  lemma LowByteFirst(v: Short)
    ensures PutLE16(v) == [v % 256, v / 256]
  {
  }

  /** The frame that is assembled: 30 fixed bytes, and the rates unless there are none */
  lemma FrameBytesAre(da: Mac, sa: Mac, bssid: Mac, capability: Short, aid: Short, rates: seq<byte>)
    requires |rates| <= CW_80211_MAX_SUPP_RATES
    ensures var id := aid % 0x4000 + 0xC000;
            ResponseBytes(da, sa, bssid, capability, aid, rates) ==
              [16, 0, 0, 0] + da + sa + bssid + [0, 0, capability % 256, capability / 256, 0, 0, id % 256, id / 256]
              + if rates == [] then [] else [1, |rates|] + rates
  {
    var id := aid % 0x4000 + 0xC000;
    FrameAIDIs(aid);
    HeadBytesAre(da, sa, bssid);
    TailBytesAre(capability, id);
  }

  lemma HeadBytesAre(da: Mac, sa: Mac, bssid: Mac)
    ensures HeadBytes(da, sa, bssid) == [16, 0, 0, 0] + da + sa + bssid
  {
    assert PutLE16(16) == [16, 0] && PutLE16(0) == [0, 0];
  }

  lemma TailBytesAre(capability: Short, id: Short)
    ensures TailBytes(capability, id) == [0, 0, capability % 256, capability / 256, 0, 0, id % 256, id / 256]
  {
    LowByteFirst(0);
    LowByteFirst(capability);
    LowByteFirst(id);
  }

  /**
   * Any frame: it is refused or faults by the type and the length of its rates alone, and what is
   * accepted has its fields at fixed places, 16-bit ones with the low byte first.
   */
  lemma FrameRead(buf: seq<byte>, h: seq<nat>)
    requires h == Slice(buf, 0, 32)
    ensures ParsedResponse(buf).Fault? <==> h[30] == 1 && h[31] == 255
    ensures ParsedResponse(buf).Accepted? <==> h[30] == 1 && 0 < h[31] < 128
    ensures ParsedResponse(buf).Accepted? ==>
              var r := ParsedResponse(buf).response;
              && r.frameControl == h[0] + 256 * h[1] && r.duration == h[2] + 256 * h[3]
              && r.da == h[4..10] && r.sa == h[10..16] && r.bssid == h[16..22]
              && r.seqCtrl == h[22] + 256 * h[23] && r.capability == h[24] + 256 * h[25]
              && r.status == h[26] + 256 * h[27] && r.assID == h[28] + 256 * h[29]
              && r.rates == Slice(buf, 32, h[31])
  {
  }

  // ---------------------------------------------------------------- the Station element

  function StationBody(radioID: int, wlanID: int, r: Response): seq<byte> {
    Put8(radioID) + Put16(RestoredAID(r.assID)) + Put8(0) + r.da + Put16(r.capability) + Put8(wlanID) + r.rates
  }

  /** The body, byte by byte; the identifier is the one of the response less 49152, in 16 bits. */
  lemma StationBodyIs(radioID: int, wlanID: int, r: Response)
    ensures var id := (r.assID - 49152) % 0x1_0000;
            StationBody(radioID, wlanID, r) ==
              [radioID % 256, id / 256, id % 256, 0] + r.da
              + [r.capability / 256, r.capability % 256, wlanID % 256] + r.rates
  {
  }

  /** Up to the station's address */
  method StoreIdentity(m: ProtocolMessage, radioID: int, assID: Short, da: Mac)
    requires m.offset == 0 && m.msg.Length >= 13
    modifies m`offset, m.msg
    ensures m.offset == 10 && m.Written() == Put8(radioID) + Put16(RestoredAID(assID)) + Put8(0) + da
  {
    m.Store8(radioID);
    m.Store16((assID - 49152) % 0x1_0000);
    m.Store8(0);
    m.StoreRawBytes(da);
  }

  method StoreStation(radioID: int, wlanID: int, r: Response) returns (m: ProtocolMessage)
    ensures fresh(m) && fresh(m.msg) && m.offset == m.msg.Length && m.Written() == StationBody(radioID, wlanID, r)
  {
    m := new ProtocolMessage(13 + |r.rates|);
    StoreIdentity(m, radioID, r.assID, r.da);
    m.Store16(r.capability);
    m.Store8(wlanID);
    m.StoreRawBytes(r.rates);
  }

  /** CWAssembleMsgElem80211Station */
  method AssembleStation(radioID: int, wlanID: int, r: Response) returns (m: ProtocolMessage)
    ensures fresh(m) && fresh(m.msg) && m.offset <= m.msg.Length
    ensures m.Written() == ElementBytes(Element(STATION_ELEMENT, StationBody(radioID, wlanID, r)))
  {
    m := StoreStation(radioID, wlanID, r);
    AssembleMsgElem(m, STATION_ELEMENT);
  }

  /**
   * From the association response to the Station element: the identifier in the element is the
   * one the response was assembled for exactly if it is below 2^14.
   */
  lemma StationCarriesAID(
      da: Mac, sa: Mac, bssid: Mac, capability: Short, aid: Short, rates: seq<byte>,
      radioID: int, wlanID: int)
    requires 0 < |rates| <= CW_80211_MAX_SUPP_RATES
    ensures var frame := ResponseBytes(da, sa, bssid, capability, aid, rates);
            var p := ParsedResponse(frame + Zeros(FRAME_LEN - |frame|));
            && p.Accepted?
            && var body := StationBody(radioID, wlanID, p.response);
               && Get8(body, 0) == radioID % 0x100 && Get8(body, 3) == 0
               && (Get16(body, 1) == aid <==> aid < 0x4000)
               && Slice(body, 4, 6) == da && Get16(body, 10) == capability
               && Get8(body, 12) == wlanID % 0x100 && body[13..] == rates
  {
    ResponseRoundTrip(da, sa, bssid, capability, aid, rates);
    var frame := ResponseBytes(da, sa, bssid, capability, aid, rates);
    var r := ParsedResponse(frame + Zeros(FRAME_LEN - |frame|)).response;
    StationReadBack(radioID, wlanID, r);
  }

  lemma StationReadBack(radioID: int, wlanID: int, r: Response)
    ensures var body := StationBody(radioID, wlanID, r);
            && |body| == 13 + |r.rates|
            && Get8(body, 0) == radioID % 0x100 && Get16(body, 1) == RestoredAID(r.assID) && Get8(body, 3) == 0
            && Slice(body, 4, 6) == r.da && Get16(body, 10) == r.capability
            && Get8(body, 12) == wlanID % 0x100 && body[13..] == r.rates
  {
    var body := StationBody(radioID, wlanID, r);
    var a, b, c, d, e := Put8(radioID), Put16(RestoredAID(r.assID)), Put8(0), Put16(r.capability), Put8(wlanID);
    HoldsParts(body, 0, a + b + c + r.da + d + e, r.rates);
    HoldsParts(body, 0, a + b + c + r.da + d, e);
    HoldsParts(body, 0, a + b + c + r.da, d);
    HoldsParts(body, 0, a + b + c, r.da);
    HoldsParts(body, 0, a + b, c);
    HoldsParts(body, 0, a, b);
    GetPut8(body, 0, radioID);
    GetPut16(body, 1, RestoredAID(r.assID));
    GetPut8(body, 3, 0);
    SliceHeld(body, 4, r.da);
    GetPut16(body, 10, r.capability);
    GetPut8(body, 12, wlanID);
  }
}
