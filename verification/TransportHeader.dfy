/**
 * The CAPWAP transport header (section 4.3 of RFC 5415): assembled by
 * CWAssembleTransportHeader, read back by CWParseTransportHeader.
 */
module TransportHeader {
  import opened Bits
  import opened Wire
  import opened Wrappers

  const PROTOCOL_VERSION := 0
  const PACKET_PLAIN := 0

  // First word
  const VERSION: Field := BitRange(0, 4)
  const TYPE: Field := BitRange(4, 4)
  const HLEN: Field := BitRange(8, 5)
  const RID: Field := BitRange(13, 5)
  const WBID: Field := BitRange(18, 5)
  const T: Field := BitRange(23, 1)
  const F: Field := BitRange(24, 1)
  const L: Field := BitRange(25, 1)
  const W: Field := BitRange(26, 1)
  const M: Field := BitRange(27, 1)
  const K: Field := BitRange(28, 1)
  const FLAGS: Field := BitRange(29, 3)

  // Second word
  const FRAGMENT_ID: Field := BitRange(0, 16)
  const FRAGMENT_OFFSET: Field := BitRange(16, 13)
  const RESERVED: Field := BitRange(29, 3)

  // Wireless binding words
  const BINDING_LENGTH: Field := BitRange(0, 8)
  const BINDING_RSSI: Field := BitRange(8, 8)
  const BINDING_SNR: Field := BitRange(16, 8)
  const BINDING_DATARATE: Field := BitRange(24, 8)
  const BINDING_DATALENGTH := 4

  // Kinds of data packet a parsed header announces
  const DATA_MSG_FRAME := 1
  const DATA_MSG_STATS := 2
  const DATA_MSG_FREQ_STATS := 3
  const IEEE_802_3_FRAME := 4
  const DATA_MSG_KEEP_ALIVE := 5
  const IEEE_802_11_FRAME := 6

  /** What a sender puts in a header; the wireless binding pointer is NULL. */
  datatype HeaderValues = HeaderValues(
    payloadType: int, frameType: int, isFragment: int, last: int, fragmentID: int, fragmentOffset: int)

  // ---------------------------------------------------------------- words built field by field

  datatype Setting = Setting(field: Field, val: int)

  /** The word that results from setting fields one after the other, starting from zero */
  function SetAll(settings: seq<Setting>): nat
  {
    if settings == [] then 0
    else
      var n := |settings| - 1;
      SetField(SetAll(settings[..n]), settings[n].field, ToWord(settings[n].val))
  }

  predicate WellLaidOut(settings: seq<Setting>) {
    forall i, j :: 0 <= i < j < |settings| ==> settings[i].field.Apart(settings[j].field)
  }

  /** Every field reads back what it was set to, whatever was set before or after it. */
  lemma {:induction false} FieldsReadBack(settings: seq<Setting>, i: nat)
    requires WellLaidOut(settings) && i < |settings|
    ensures GetField(SetAll(settings), settings[i].field)
         == Low(ToWord(settings[i].val), settings[i].field.len)
  {
    var n := |settings| - 1;
    var before := settings[..n];
    if i == n {
      UnsetFieldIsZero(before, settings[n].field);
      SetThenGet(SetAll(before), settings[n].field, ToWord(settings[n].val));
    } else {
      FieldsReadBack(before, i);
      SetLeavesOthers(SetAll(before), settings[n].field, ToWord(settings[n].val), settings[i].field);
    }
  }

  lemma {:induction false} UnsetFieldIsZero(settings: seq<Setting>, f: Field)
    requires forall i :: 0 <= i < |settings| ==> settings[i].field.Apart(f)
    ensures GetField(SetAll(settings), f) == 0
  {
    if settings == [] {
      GetOfZero(f);
    } else {
      var n := |settings| - 1;
      UnsetFieldIsZero(settings[..n], f);
      SetLeavesOthers(SetAll(settings[..n]), settings[n].field, ToWord(settings[n].val), f);
    }
  }

  lemma {:induction false} SetAllIsWord(settings: seq<Setting>)
    ensures SetAll(settings) < 0x1_0000_0000
  {
    if settings != [] {
      var n := |settings| - 1;
      SetAllIsWord(settings[..n]);
      SetStaysWord(SetAll(settings[..n]), settings[n].field, ToWord(settings[n].val));
    }
  }

  // ---------------------------------------------------------------- assembly

  /** The sender puts its radio MAC in the header unless it is all zeroes. */
  predicate MacPresent(mac: Mac) {
    exists i :: 0 <= i < ETH_ALEN && mac[i] != 0
  }

  function PayloadBit(v: HeaderValues): int {
    if v.payloadType == PACKET_PLAIN then 0 else 1
  }

  function TypeBit(v: HeaderValues): int {
    if v.frameType == 1 then 1 else 0
  }

  /** Header length in 4-byte units */
  function HeaderUnits(macPresent: bool): int {
    if macPresent then 4 else 2
  }

  function MacBit(macPresent: bool): int {
    if macPresent then 1 else 0
  }

  /** The first word, in the order in which the fields are stored */
  function FirstWordSettings(payload: int, units: int, typ: int, isFragment: int, last: int, macBit: int)
    : seq<Setting>
  {
    [ Setting(VERSION, PROTOCOL_VERSION), Setting(TYPE, payload), Setting(HLEN, units),
      Setting(RID, 0), Setting(WBID, 1), Setting(T, typ), Setting(F, isFragment), Setting(L, last),
      Setting(W, 0), Setting(M, macBit), Setting(K, 0), Setting(FLAGS, 0) ]
  }

  function FirstWord(v: HeaderValues, macPresent: bool): seq<Setting> {
    FirstWordSettings(PayloadBit(v), HeaderUnits(macPresent), TypeBit(v), v.isFragment, v.last, MacBit(macPresent))
  }

  function SecondWord(v: HeaderValues): seq<Setting> {
    [ Setting(FRAGMENT_ID, v.fragmentID),
      Setting(FRAGMENT_OFFSET, v.fragmentOffset),
      Setting(RESERVED, 0) ]
  }

  function MacTrailer(mac: Mac): seq<byte> {
    if MacPresent(mac) then Put8(ETH_ALEN) + mac + Put8(0) else []
  }

  function HeaderBytes(v: HeaderValues, mac: Mac): (h: seq<byte>)
    ensures |h| == if MacPresent(mac) then 16 else 8
  {
    Put32(SetAll(FirstWord(v, MacPresent(mac)))) + Put32(SetAll(SecondWord(v))) + MacTrailer(mac)
  }

  /** The fields of each word do not overlap. */
  lemma HeaderIsWellLaidOut(v: HeaderValues, macPresent: bool)
    ensures WellLaidOut(FirstWord(v, macPresent))
    ensures WellLaidOut(SecondWord(v))
  {}

  /** Together the fields of a word cover all of its 32 bits. */
  lemma FieldsCoverWord(v: HeaderValues, macPresent: bool, bit: nat)
    requires bit < WORD_BITS
    ensures exists s :: s in FirstWord(v, macPresent) && s.field.start <= bit < s.field.start + s.field.len
    ensures exists s :: s in SecondWord(v) && s.field.start <= bit < s.field.start + s.field.len
  {
    var w0, w1 := FirstWord(v, macPresent), SecondWord(v);
    var i := if bit < 4 then 0 else if bit < 8 then 1 else if bit < 13 then 2 else if bit < 18 then 3
             else if bit < 23 then 4 else if bit < 29 then bit - 18 else 11;
    assert w0[i] in w0 && w0[i].field.start <= bit < w0[i].field.start + w0[i].field.len;
    var j := if bit < 16 then 0 else if bit < 29 then 1 else 2;
    assert w1[j] in w1 && w1[j].field.start <= bit < w1[j].field.start + w1[j].field.len;
  }

  /** One CWSetField32 statement, the k-th of those that make up `word` */
  method Set(val: nat, f: Field, v: int, ghost word: seq<Setting>, ghost k: nat) returns (val': nat)
    requires k < |word| && word[k] == Setting(f, v) && val == SetAll(word[..k])
    ensures val' == SetAll(word[..k + 1])
  {
    assert word[..k + 1][..k] == word[..k];
    val' := SetField(val, f, ToWord(v));
  }

  method BuildFirstWord(payload: int, units: int, typ: int, isFragment: int, last: int, macBit: int)
    returns (val: nat)
    ensures val == SetAll(FirstWordSettings(payload, units, typ, isFragment, last, macBit))
  {
    ghost var word := FirstWordSettings(payload, units, typ, isFragment, last, macBit);
    val := 0;
    val := Set(val, VERSION, PROTOCOL_VERSION, word, 0);
    val := Set(val, TYPE, payload, word, 1);
    val := Set(val, HLEN, units, word, 2);
    val := Set(val, RID, 0, word, 3);
    val := Set(val, WBID, 1, word, 4);
    val := Set(val, T, typ, word, 5);
    val := Set(val, F, isFragment, word, 6);
    val := Set(val, L, last, word, 7);
    val := Set(val, W, 0, word, 8);
    val := Set(val, M, macBit, word, 9);
    val := Set(val, K, 0, word, 10);
    val := Set(val, FLAGS, 0, word, 11);
    assert word[..12] == word;
  }

  method BuildSecondWord(v: HeaderValues) returns (val: nat)
    ensures val == SetAll(SecondWord(v))
  {
    ghost var word := SecondWord(v);
    val := 0;
    val := Set(val, FRAGMENT_ID, v.fragmentID, word, 0);
    val := Set(val, FRAGMENT_OFFSET, v.fragmentOffset, word, 1);
    val := Set(val, RESERVED, 0, word, 2);
    assert word[..3] == word;
  }

  method StoreHeader(first: nat, second: nat, macPresent: bool, mac: Mac) returns (hdr: ProtocolMessage)
    requires macPresent <==> MacPresent(mac)
    ensures fresh(hdr) && fresh(hdr.msg) && hdr.offset == hdr.msg.Length
    ensures hdr.Written() == Put32(first) + Put32(second) + MacTrailer(mac)
  {
    hdr := new ProtocolMessage(if macPresent then 16 else 8);
    hdr.Store32(first);
    hdr.Store32(second);
    assert hdr.Written() == Put32(first) + Put32(second);
    if macPresent {
      hdr.Store8(ETH_ALEN);
      hdr.StoreRawBytes(mac);
      hdr.Store8(0);
    }
  }

  method AssembleTransportHeader(v: HeaderValues, mac: Mac) returns (hdr: ProtocolMessage)
    ensures fresh(hdr) && fresh(hdr.msg) && hdr.offset == hdr.msg.Length
    ensures hdr.Written() == HeaderBytes(v, mac)
  {
    var macPresent := false;
    for i := 0 to ETH_ALEN
      invariant !macPresent && forall j :: 0 <= j < i ==> mac[j] == 0
    {
      if mac[i] != 0 {
        macPresent := true;
        break;
      }
    }
    var first := BuildFirstWord(
      PayloadBit(v), HeaderUnits(macPresent), TypeBit(v), v.isFragment, v.last, MacBit(macPresent));
    var second := BuildSecondWord(v);
    hdr := StoreHeader(first, second, macPresent, mac);
  }

  // ---------------------------------------------------------------- parsing

  datatype BindingValues = BindingValues(rssi: nat, snr: nat, dataRate: nat)

  /** The length byte of a radio MAC field and the seven bytes that follow it */
  datatype RadioMac = RadioMac(macLen: byte, raw: seq<byte>)

  datatype ParsedValues = ParsedValues(
    payloadType: nat, frameType: nat, isFragment: nat, last: nat, keepAlive: nat,
    fragmentID: nat, fragmentOffset: nat, binding: Option<BindingValues>, radioMac: Option<RadioMac>)

  /**
   * `dataFlag` is the flag after the call: parsing may raise it, even when it fails.
   * `offset` is where parsing stopped and `msgType` the kind of data packet, when the
   * header says.
   */
  datatype HeaderResult =
    | BadHeader(dataFlag: bool)
    | Header(values: ParsedValues, dataFlag: bool, offset: nat, msgType: Option<nat>)

  function FieldOf(buf: seq<byte>, off: nat, f: Field): nat
  {
    GetField(Get32(buf, off), f)
  }

  /** CWParseTransportHeaderBinding: the values and the packet kind, or None on a bad length */
  function ParseBinding(buf: seq<byte>, off: nat, kind: Option<nat>): Option<(BindingValues, Option<nat>)> {
    if FieldOf(buf, off, BINDING_LENGTH) != BINDING_DATALENGTH then None
    else
      var snr := FieldOf(buf, off, BINDING_SNR);
      var rate := FieldOf(buf, off, BINDING_DATARATE);
      var kind' := if rate == 255 then Some(if snr == 1 then DATA_MSG_FREQ_STATS else DATA_MSG_STATS)
                   else if rate == 0 then Some(DATA_MSG_FRAME)
                   else kind;
      Some((BindingValues(FieldOf(buf, off, BINDING_RSSI), snr,
                          rate * 0x100 + FieldOf(buf, off + 4, BINDING_DATARATE)), kind'))
  }

  function BaseValues(buf: seq<byte>, off: nat): ParsedValues {
    ParsedValues(FieldOf(buf, off, TYPE), FieldOf(buf, off, T), FieldOf(buf, off, F), FieldOf(buf, off, L),
                 FieldOf(buf, off, K), FieldOf(buf, off + 4, FRAGMENT_ID), FieldOf(buf, off + 4, FRAGMENT_OFFSET),
                 None, None)
  }

  /** What the optional parts of a header say, and where they end */
  datatype Options = Options(values: ParsedValues, offset: nat, msgType: Option<nat>)

  /** The radio MAC, if the M bit announces one */
  function WithMac(buf: seq<byte>, start: nat, o: Options): Options {
    if FieldOf(buf, start, M) == 0 then o
    else
      var mac := RadioMac(Get8(buf, o.offset), Slice(buf, o.offset + 1, 7));
      o.(values := o.values.(radioMac := Some(mac)), offset := o.offset + 8)
  }

  /** What follows the two header words on the data channel; None if the wireless header is malformed */
  function DataOptions(buf: seq<byte>, start: nat, kind: Option<nat>): Option<Options> {
    var v := BaseValues(buf, start);
    if v.keepAlive != 0 then
      Some(WithMac(buf, start, Options(v, start + 10, Some(DATA_MSG_KEEP_ALIVE))))
    else if FieldOf(buf, start, W) != 1 then
      var frame := if v.frameType == 0 then IEEE_802_3_FRAME else IEEE_802_11_FRAME;
      Some(WithMac(buf, start, Options(v, start + 8, Some(frame))))
    else
      match ParseBinding(buf, start + 8, kind)
      case None => None
      case Some((b, kind')) =>
        var kind'' := if v.frameType == 0 then kind' else Some(IEEE_802_11_FRAME);
        Some(WithMac(buf, start, Options(v.(binding := Some(b)), start + 16, kind'')))
  }

  /** A control packet with a wireless header is a data packet after all. */
  predicate WirelessControl(buf: seq<byte>, start: nat) {
    FieldOf(buf, start, HLEN) == 4 && FieldOf(buf, start, W) == 1
  }

  /** What follows the two header words on the control channel; such a wireless header hides the MAC */
  function ControlOptions(buf: seq<byte>, start: nat, kind: Option<nat>): Option<Options> {
    var v := BaseValues(buf, start);
    if WirelessControl(buf, start) then
      match ParseBinding(buf, start + 8, kind)
      case None => None
      case Some((b, kind')) => Some(Options(v.(binding := Some(b)), start + 16, kind'))
    else
      Some(WithMac(buf, start, Options(v, start + 8, kind)))
  }

  predicate LengthAcceptable(buf: seq<byte>, start: nat) {
    FieldOf(buf, start, HLEN) == 2 || WirelessControl(buf, start) || FieldOf(buf, start, M) != 0
  }

  /** CWParseTransportHeader on the bytes of buf from start on */
  function ParseHeader(buf: seq<byte>, start: nat, dataFlag: bool, kind: Option<nat>): HeaderResult {
    if FieldOf(buf, start, VERSION) != PROTOCOL_VERSION then BadHeader(dataFlag)
    else
      var flag := dataFlag || WirelessControl(buf, start);
      match if dataFlag then DataOptions(buf, start, kind) else ControlOptions(buf, start, kind)
      case None => BadHeader(flag)
      case Some(o) =>
        if LengthAcceptable(buf, start) then Header(o.values, flag, o.offset, o.msgType) else BadHeader(flag)
  }

  method ParseTransportHeaderBinding(msg: ProtocolMessage, kind: Option<nat>)
    returns (ok: bool, b: BindingValues, kind': Option<nat>)
    modifies msg`offset
    ensures msg.offset == old(msg.offset) + if ok then 8 else 4
    ensures match ParseBinding(msg.msg[..], old(msg.offset), kind)
            case None => !ok && kind' == kind
            case Some(r) => ok && b == r.0 && kind' == r.1
  {
    var val := msg.Retrieve32();
    kind' := kind;
    if GetField(val, BINDING_LENGTH) != BINDING_DATALENGTH {
      return false, BindingValues(0, 0, 0), kind';
    }
    var rssi := GetField(val, BINDING_RSSI);
    var snr := GetField(val, BINDING_SNR);
    var rate := GetField(val, BINDING_DATARATE);
    val := msg.Retrieve32();
    if rate == 255 {
      if snr == 1 {
        kind' := Some(DATA_MSG_FREQ_STATS);
      } else {
        kind' := Some(DATA_MSG_STATS);
      }
    } else if rate == 0 {
      kind' := Some(DATA_MSG_FRAME);
    }
    return true, BindingValues(rssi, snr, rate * 0x100 + GetField(val, BINDING_DATARATE)), kind';
  }

  method ParseTransportHeaderMACAddress(msg: ProtocolMessage) returns (mac: RadioMac)
    modifies msg`offset
    ensures msg.offset == old(msg.offset) + 8
    ensures mac == RadioMac(Get8(msg.msg[..], old(msg.offset)), Slice(msg.msg[..], old(msg.offset) + 1, 7))
  {
    var macLen := msg.Retrieve8();
    var raw := msg.RetrieveRawBytes(7);
    mac := RadioMac(macLen, raw);
  }

  method ParseMacIfPresent(msg: ProtocolMessage, ghost start: nat, m: nat,
                           values: ParsedValues, ghost kind: Option<nat>)
    returns (values': ParsedValues)
    requires m == FieldOf(msg.msg[..], start, M)
    modifies msg`offset
    ensures Options(values', msg.offset, kind) == WithMac(msg.msg[..], start, Options(values, old(msg.offset), kind))
  {
    values' := values;
    if m != 0 {
      var mac := ParseTransportHeaderMACAddress(msg);
      values' := values.(radioMac := Some(mac));
    }
  }

  method ParseDataOptions(msg: ProtocolMessage, base: ParsedValues, wireless: nat, m: nat, kind: Option<nat>,
                          ghost start: nat)
    returns (ok: bool, values: ParsedValues, kind': Option<nat>)
    requires msg.offset == start + 8 && base == BaseValues(msg.msg[..], start)
    requires wireless == FieldOf(msg.msg[..], start, W) && m == FieldOf(msg.msg[..], start, M)
    modifies msg`offset
    ensures DataOptions(msg.msg[..], start, kind)
         == if ok then Some(Options(values, msg.offset, kind')) else None
  {
    ok, values, kind' := true, base, kind;
    if values.keepAlive != 0 {
      kind' := Some(DATA_MSG_KEEP_ALIVE);
      var _ := msg.Retrieve16();
    } else if wireless == 1 {
      var bound, b, k := ParseTransportHeaderBinding(msg, kind');
      if !bound {
        ok := false;
        return;
      }
      values := values.(binding := Some(b));
      kind' := if values.frameType == 0 then k else Some(IEEE_802_11_FRAME);
    } else {
      kind' := Some(if values.frameType == 0 then IEEE_802_3_FRAME else IEEE_802_11_FRAME);
    }
    values := ParseMacIfPresent(msg, start, m, values, kind');
  }

  method ParseControlOptions(msg: ProtocolMessage, base: ParsedValues, wirelessControl: bool, m: nat,
                             kind: Option<nat>, ghost start: nat)
    returns (ok: bool, values: ParsedValues, kind': Option<nat>)
    requires msg.offset == start + 8 && base == BaseValues(msg.msg[..], start)
    requires wirelessControl == WirelessControl(msg.msg[..], start) && m == FieldOf(msg.msg[..], start, M)
    modifies msg`offset
    ensures ControlOptions(msg.msg[..], start, kind)
         == if ok then Some(Options(values, msg.offset, kind')) else None
  {
    ok, values, kind' := true, base, kind;
    if wirelessControl {
      var bound, b, k := ParseTransportHeaderBinding(msg, kind');
      if !bound {
        ok := false;
        return;
      }
      values, kind' := values.(binding := Some(b)), k;
    } else {
      values := ParseMacIfPresent(msg, start, m, values, kind');
    }
  }

  method ParseTransportHeader(msg: ProtocolMessage, dataFlag: bool, kind: Option<nat>)
    returns (ok: bool, values: ParsedValues, dataFlag': bool, kind': Option<nat>)
    modifies msg`offset
    ensures ParseHeader(msg.msg[..], old(msg.offset), dataFlag, kind)
         == if ok then Header(values, dataFlag', msg.offset, kind') else BadHeader(dataFlag')
  {
    ghost var start := msg.offset;
    values, dataFlag', kind' := ParsedValues(0, 0, 0, 0, 0, 0, 0, None, None), dataFlag, kind;
    var first := msg.Retrieve32();
    if GetField(first, VERSION) != PROTOCOL_VERSION {
      ok := false;
      return;
    }
    var hlen, wireless, m := GetField(first, HLEN), GetField(first, W), GetField(first, M);
    var second := msg.Retrieve32();
    values := ParsedValues(GetField(first, TYPE), GetField(first, T), GetField(first, F), GetField(first, L),
                           GetField(first, K), GetField(second, FRAGMENT_ID), GetField(second, FRAGMENT_OFFSET),
                           None, None);
    var wirelessControl := hlen == 4 && wireless == 1;
    if dataFlag {
      ok, values, kind' := ParseDataOptions(msg, values, wireless, m, kind', start);
    } else {
      dataFlag' := wirelessControl;
      ok, values, kind' := ParseControlOptions(msg, values, wirelessControl, m, kind', start);
    }
    ok := ok && (hlen == 2 || wirelessControl || m != 0);
  }

  // ---------------------------------------------------------------- round trip

  lemma SmallPowers()
    ensures Pow2(1) == 2 && Pow2(3) == 8 && Pow2(4) == 16 && Pow2(5) == 32
    ensures Pow2(13) == 8192 && Pow2(16) == 0x1_0000
  {
    assert Pow2(5) == 32;
    assert Pow2(8) == 256;
    assert Pow2(11) == 2048;
    assert Pow2(13) == 8192;
  }

  lemma SmallRemainder(a: nat, b: nat)
    requires a < b
    ensures a % b == a
  {}

  /** A value that fits its field is what the field reads back. */
  lemma SettingReadBack(settings: seq<Setting>, i: nat, s: Setting)
    requires WellLaidOut(settings) && i < |settings| && settings[i] == s
    requires s.field.len <= 16 && 0 <= s.val < Pow2(s.field.len)
    ensures GetField(SetAll(settings), s.field) == s.val
  {
    FieldsReadBack(settings, i);
    SmallPowers();
    Pow2Monotone(s.field.len, 16);
    SmallRemainder(s.val, 0x1_0000_0000);
    LowIsRemainder(s.val, s.field.len);
    SmallRemainder(s.val, Pow2(s.field.len));
  }

  lemma FirstWordFields(v: HeaderValues, macPresent: bool, w: nat)
    requires 0 <= v.isFragment < 2 && 0 <= v.last < 2
    requires w == SetAll(FirstWord(v, macPresent))
    ensures GetField(w, VERSION) == PROTOCOL_VERSION
    ensures GetField(w, TYPE) == PayloadBit(v)
    ensures GetField(w, HLEN) == HeaderUnits(macPresent)
    ensures GetField(w, T) == TypeBit(v)
    ensures GetField(w, F) == v.isFragment && GetField(w, L) == v.last
    ensures GetField(w, W) == 0 && GetField(w, K) == 0
    ensures GetField(w, M) == MacBit(macPresent)
  {
    var s := FirstWord(v, macPresent);
    HeaderIsWellLaidOut(v, macPresent);
    SmallPowers();
    SettingReadBack(s, 0, Setting(VERSION, PROTOCOL_VERSION));
    SettingReadBack(s, 1, Setting(TYPE, PayloadBit(v)));
    SettingReadBack(s, 2, Setting(HLEN, HeaderUnits(macPresent)));
    SettingReadBack(s, 5, Setting(T, TypeBit(v)));
    SettingReadBack(s, 6, Setting(F, v.isFragment));
    SettingReadBack(s, 7, Setting(L, v.last));
    SettingReadBack(s, 8, Setting(W, 0));
    SettingReadBack(s, 9, Setting(M, MacBit(macPresent)));
    SettingReadBack(s, 10, Setting(K, 0));
  }

  lemma SecondWordFields(v: HeaderValues, w: nat)
    requires 0 <= v.fragmentID < 0x1_0000 && 0 <= v.fragmentOffset < 0x1_0000_0000
    requires w == SetAll(SecondWord(v))
    ensures GetField(w, FRAGMENT_ID) == v.fragmentID
    ensures GetField(w, FRAGMENT_OFFSET) == v.fragmentOffset % 8192
  {
    var s := SecondWord(v);
    HeaderIsWellLaidOut(v, false);
    SmallPowers();
    SettingReadBack(s, 0, Setting(FRAGMENT_ID, v.fragmentID));
    FieldsReadBack(s, 1);
    SmallRemainder(v.fragmentOffset, 0x1_0000_0000);
    LowIsRemainder(v.fragmentOffset, 13);
  }

  /** The words and the trailer of an assembled header, where the parser reads them */
  lemma HeaderParts(buf: seq<byte>, off: nat, v: HeaderValues, mac: Mac)
    requires Holds(buf, off, HeaderBytes(v, mac))
    ensures Get32(buf, off) == SetAll(FirstWord(v, MacPresent(mac)))
    ensures Get32(buf, off + 4) == SetAll(SecondWord(v))
    ensures Holds(buf, off + 8, MacTrailer(mac))
  {
    var w0, w1 := SetAll(FirstWord(v, MacPresent(mac))), SetAll(SecondWord(v));
    HoldsParts(buf, off, Put32(w0) + Put32(w1), MacTrailer(mac));
    HoldsParts(buf, off, Put32(w0), Put32(w1));
    GetPut32(buf, off, w0);
    GetPut32(buf, off + 4, w1);
    SetAllIsWord(FirstWord(v, MacPresent(mac)));
    SetAllIsWord(SecondWord(v));
    SmallRemainder(w0, 0x1_0000_0000);
    SmallRemainder(w1, 0x1_0000_0000);
  }

  /** A radio MAC in the trailer is read as a length of six, the address and a padding byte. */
  lemma MacReadBack(buf: seq<byte>, off: nat, mac: Mac)
    requires MacPresent(mac) && Holds(buf, off, MacTrailer(mac))
    ensures Get8(buf, off) == ETH_ALEN && Slice(buf, off + 1, 7) == mac + [0]
  {
    assert MacTrailer(mac) == Put8(ETH_ALEN) + (mac + [0]);
    HoldsParts(buf, off, Put8(ETH_ALEN), mac + [0]);
    GetPut8(buf, off, ETH_ALEN);
    SliceHeld(buf, off + 1, mac + [0]);
  }

  /**
   * Parsing what was assembled restores every value, on the control channel and on the
   * data channel, and stops exactly behind the header.
   */
  lemma HeaderRoundTrip(
    buf: seq<byte>, off: nat, v: HeaderValues, mac: Mac, dataFlag: bool, kind: Option<nat>)
    requires Holds(buf, off, HeaderBytes(v, mac))
    requires 0 <= v.isFragment < 2 && 0 <= v.last < 2
    requires 0 <= v.fragmentID < 0x1_0000 && 0 <= v.fragmentOffset < 0x1_0000_0000
    ensures ParseHeader(buf, off, dataFlag, kind) == Header(
              ParsedValues(
                if v.payloadType == PACKET_PLAIN then 0 else 1,
                if v.frameType == 1 then 1 else 0,
                v.isFragment, v.last, 0, v.fragmentID, v.fragmentOffset % 8192, None,
                if MacPresent(mac) then Some(RadioMac(ETH_ALEN, mac + [0])) else None),
              dataFlag,
              off + |HeaderBytes(v, mac)|,
              if !dataFlag then kind
              else if v.frameType == 1 then Some(IEEE_802_11_FRAME) else Some(IEEE_802_3_FRAME))
  {
    var present := MacPresent(mac);
    HeaderParts(buf, off, v, mac);
    FirstWordFields(v, present, Get32(buf, off));
    SecondWordFields(v, Get32(buf, off + 4));
    if present { MacReadBack(buf, off + 8, mac); }
  }
}
