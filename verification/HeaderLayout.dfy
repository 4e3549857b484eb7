/**
 * The transport header byte by byte (section 4.3 of RFC 5415): which bytes a sender writes, and
 * what a receiver makes of any bytes.  Nothing here goes through the fields of a word.
 */
module HeaderLayout {
  import opened Bits
  import opened Wire
  import opened Wrappers
  import opened TransportHeader

  // ---------------------------------------------------------------- fields as digits

  lemma {:induction false} ShrIsQuotient(v: nat, k: nat)
    ensures Shr(v, k) == v / Pow2(k)
    decreases k
  {
    if k > 0 {
      ShrIsQuotient(v / 2, k - 1);
      HalfQuotient(v, Pow2(k - 1));
    }
  }

  lemma HalfQuotient(v: nat, p: nat)
    requires p > 0
    ensures (v / 2) / p == v / (2 * p)
  {
    var q, r := (v / 2) / p, (v / 2) % p;
    assert v / 2 == q * p + r;
    assert v == q * (2 * p) + (2 * r + v % 2);
    QuotientIs(v, 2 * p, q, 2 * r + v % 2);
  }

  lemma QuotientIs(v: nat, d: nat, q: nat, r: nat)
    requires r < d && v == q * d + r
    ensures v / d == q
  {
    MultipleGap(v / d, q, d, v % d, r);
  }

  /** A field is a digit of the word: what is left of it is divided off on the right and cut on the left. */
  lemma FieldIsDigit(w: nat, f: Field, unit: nat, base: nat)
    requires unit == Pow2(f.Shift()) && base == Pow2(f.len)
    ensures GetField(w, f) == (w / unit) % base
  {
    ShrIsQuotient(w, f.Shift());
    LowIsRemainder(Shr(w, f.Shift()), f.len);
  }

  lemma DigitIs(w: nat, high: nat, digit: nat, low: nat, unit: nat, base: nat)
    requires digit < base && low < unit && w == (high * base + digit) * unit + low
    ensures (w / unit) % base == digit
  {
    QuotientIs(w, unit, high * base + digit, low);
    RemainderUnique(high * base + digit, base, high, digit);
  }

  /** A field that stands between what lies above it and below it */
  lemma FieldIs(w: nat, f: Field, high: nat, digit: nat, low: nat, unit: nat, base: nat)
    requires unit == Pow2(f.Shift()) && base == Pow2(f.len)
    requires digit < base && low < unit && w == (high * base + digit) * unit + low
    ensures GetField(w, f) == digit
  {
    FieldIsDigit(w, f, unit, base);
    DigitIs(w, high, digit, low, unit, base);
  }

  lemma LargePowers()
    ensures Pow2(0) == 1 && Pow2(6) == 64 && Pow2(7) == 128 && Pow2(8) == 256 && Pow2(9) == 512 && Pow2(14) == 0x4000
    ensures Pow2(19) == 0x8_0000 && Pow2(24) == 0x100_0000 && Pow2(28) == 0x1000_0000
  {
    assert Pow2(8) == 256;
    assert Pow2(12) == 4096;
    assert Pow2(16) == 0x1_0000;
    assert Pow2(20) == 0x10_0000;
    assert Pow2(24) == 0x100_0000;
  }

  // ---------------------------------------------------------------- the first word

  ghost predicate IsWord(w: nat, a: byte, b: byte, c: byte, d: byte) {
    w == a * 0x100_0000 + b * 0x1_0000 + c * 0x100 + d
  }

  lemma FirstByte(w: nat, a: byte, b: byte, c: byte, d: byte)
    requires IsWord(w, a, b, c, d)
    ensures GetField(w, VERSION) == a / 16 && GetField(w, TYPE) == a % 16
  {
    SmallPowers();
    LargePowers();
    var low := b * 0x1_0000 + c * 0x100 + d;
    FieldIs(w, VERSION, 0, a / 16, (a % 16) * 0x100_0000 + low, 0x1000_0000, 16);
    FieldIs(w, TYPE, a / 16, a % 16, low, 0x100_0000, 16);
  }

  lemma SecondByte(w: nat, a: byte, b: byte, c: byte, d: byte)
    requires IsWord(w, a, b, c, d)
    ensures GetField(w, HLEN) == b / 8 && GetField(w, RID) == (b % 8) * 4 + c / 64
  {
    SmallPowers();
    LargePowers();
    FieldIs(w, HLEN, a, b / 8, (b % 8) * 0x1_0000 + c * 0x100 + d, 0x8_0000, 32);
    FieldIs(w, RID, a * 32 + b / 8, (b % 8) * 4 + c / 64, (c % 64) * 0x100 + d, 0x4000, 32);
  }

  lemma ThirdByte(w: nat, a: byte, b: byte, c: byte, d: byte)
    requires IsWord(w, a, b, c, d)
    ensures GetField(w, WBID) == (c / 2) % 32 && GetField(w, T) == c % 2
  {
    SmallPowers();
    LargePowers();
    assert c / 2 == (c / 64) * 32 + (c / 2) % 32 && c == (c / 2) * 2 + c % 2;
    FieldIs(w, WBID, a * 0x400 + b * 4 + c / 64, (c / 2) % 32, (c % 2) * 256 + d, 512, 32);
    FieldIs(w, T, a * 0x8000 + b * 0x80 + c / 2, c % 2, d, 256, 2);
  }

  // The bits of the last byte d; x is what stands before it

  lemma FirstBit(w: nat, x: nat, d: byte)
    requires w == x * 256 + d
    ensures GetField(w, F) == d / 128
  {
    SmallPowers();
    LargePowers();
    FieldIs(w, F, x, d / 128, d % 128, 128, 2);
  }

  lemma SecondBit(w: nat, x: nat, d: byte)
    requires w == x * 256 + d
    ensures GetField(w, L) == (d / 64) % 2
  {
    SmallPowers();
    LargePowers();
    FieldIs(w, L, 2 * x + d / 128, (d / 64) % 2, d % 64, 64, 2);
  }

  lemma ThirdBit(w: nat, x: nat, d: byte)
    requires w == x * 256 + d
    ensures GetField(w, W) == (d / 32) % 2
  {
    SmallPowers();
    LargePowers();
    FieldIs(w, W, 4 * x + d / 64, (d / 32) % 2, d % 32, 32, 2);
  }

  lemma FourthBit(w: nat, x: nat, d: byte)
    requires w == x * 256 + d
    ensures GetField(w, M) == (d / 16) % 2
  {
    SmallPowers();
    LargePowers();
    FieldIs(w, M, 8 * x + d / 32, (d / 16) % 2, d % 16, 16, 2);
  }

  lemma FifthBit(w: nat, x: nat, d: byte)
    requires w == x * 256 + d
    ensures GetField(w, K) == (d / 8) % 2
  {
    SmallPowers();
    LargePowers();
    FieldIs(w, K, 16 * x + d / 16, (d / 8) % 2, d % 8, 8, 2);
  }

  lemma FourthByte(w: nat, x: nat, d: byte)
    requires w == x * 256 + d
    ensures GetField(w, F) == d / 128 && GetField(w, L) == (d / 64) % 2 && GetField(w, W) == (d / 32) % 2
    ensures GetField(w, M) == (d / 16) % 2 && GetField(w, K) == (d / 8) % 2 && GetField(w, FLAGS) == d % 8
  {
    FirstBit(w, x, d);
    SecondBit(w, x, d);
    ThirdBit(w, x, d);
    FourthBit(w, x, d);
    FifthBit(w, x, d);
    SmallPowers();
    LargePowers();
    FieldIs(w, FLAGS, 32 * x + d / 8, d % 8, 0, 1, 8);
  }

  /** Where the fields of the first word lie in its four bytes */
  lemma FirstWordDigits(w: nat, a: byte, b: byte, c: byte, d: byte)
    requires IsWord(w, a, b, c, d)
    ensures GetField(w, VERSION) == a / 16 && GetField(w, TYPE) == a % 16
    ensures GetField(w, HLEN) == b / 8 && GetField(w, RID) == (b % 8) * 4 + c / 64
    ensures GetField(w, WBID) == (c / 2) % 32 && GetField(w, T) == c % 2
    ensures GetField(w, F) == d / 128 && GetField(w, L) == (d / 64) % 2 && GetField(w, W) == (d / 32) % 2
    ensures GetField(w, M) == (d / 16) % 2 && GetField(w, K) == (d / 8) % 2 && GetField(w, FLAGS) == d % 8
  {
    FirstByte(w, a, b, c, d);
    SecondByte(w, a, b, c, d);
    ThirdByte(w, a, b, c, d);
    FourthByte(w, a * 0x1_0000 + b * 0x100 + c, d);
  }

  /** Identifier, offset and reserved bits in the four bytes of the second word */
  lemma SecondWordDigits(w: nat, a: byte, b: byte, c: byte, d: byte)
    requires IsWord(w, a, b, c, d)
    ensures GetField(w, FRAGMENT_ID) == a * 256 + b
    ensures GetField(w, FRAGMENT_OFFSET) == c * 32 + d / 8 && GetField(w, RESERVED) == d % 8
  {
    SmallPowers();
    LargePowers();
    FieldIs(w, FRAGMENT_ID, 0, a * 256 + b, c * 0x100 + d, 0x1_0000, 0x1_0000);
    FieldIs(w, FRAGMENT_OFFSET, a * 256 + b, c * 32 + d / 8, d % 8, 8, 8192);
    FieldIs(w, RESERVED, a * 0x20_0000 + b * 0x2000 + c * 32 + d / 8, d % 8, 0, 1, 8);
  }

  /** The four bytes of a word of the wireless field */
  lemma BindingDigits(w: nat, a: byte, b: byte, c: byte, d: byte)
    requires IsWord(w, a, b, c, d)
    ensures GetField(w, BINDING_LENGTH) == a && GetField(w, BINDING_RSSI) == b
    ensures GetField(w, BINDING_SNR) == c && GetField(w, BINDING_DATARATE) == d
  {
    SmallPowers();
    LargePowers();
    FieldIs(w, BINDING_LENGTH, 0, a, b * 0x1_0000 + c * 0x100 + d, 0x100_0000, 256);
    FieldIs(w, BINDING_RSSI, a, b, c * 0x100 + d, 0x1_0000, 256);
    FieldIs(w, BINDING_SNR, a * 256 + b, c, d, 256, 256);
    FieldIs(w, BINDING_DATARATE, a * 0x1_0000 + b * 256 + c, d, 0, 1, 256);
  }

  // ---------------------------------------------------------------- what a receiver reads

  const LONGEST_HEADER := 24

  /** The fields of the header words at an offset, told from the bytes there */
  lemma FieldsRead(buf: seq<byte>, off: nat, h: seq<nat>)
    requires h == Slice(buf, off, LONGEST_HEADER)
    ensures FieldOf(buf, off, VERSION) == h[0] / 16 && FieldOf(buf, off, TYPE) == h[0] % 16
    ensures FieldOf(buf, off, HLEN) == h[1] / 8 && FieldOf(buf, off, T) == h[2] % 2
    ensures FieldOf(buf, off, F) == h[3] / 128 && FieldOf(buf, off, L) == (h[3] / 64) % 2
    ensures FieldOf(buf, off, W) == (h[3] / 32) % 2 && FieldOf(buf, off, M) == (h[3] / 16) % 2
    ensures FieldOf(buf, off, K) == (h[3] / 8) % 2
    ensures FieldOf(buf, off + 4, FRAGMENT_ID) == 256 * h[4] + h[5]
    ensures FieldOf(buf, off + 4, FRAGMENT_OFFSET) == 32 * h[6] + h[7] / 8
  {
    FirstWordDigits(Get32(buf, off), h[0], h[1], h[2], h[3]);
    SecondWordDigits(Get32(buf, off + 4), h[4], h[5], h[6], h[7]);
  }

  lemma BindingRead(buf: seq<byte>, off: nat, h: seq<nat>)
    requires h == Slice(buf, off, LONGEST_HEADER)
    ensures FieldOf(buf, off + 8, BINDING_LENGTH) == h[8] && FieldOf(buf, off + 8, BINDING_RSSI) == h[9]
    ensures FieldOf(buf, off + 8, BINDING_SNR) == h[10] && FieldOf(buf, off + 8, BINDING_DATARATE) == h[11]
    ensures FieldOf(buf, off + 12, BINDING_DATARATE) == h[15]
  {
    BindingDigits(Get32(buf, off + 8), h[8], h[9], h[10], h[11]);
    BindingDigits(Get32(buf, off + 12), h[12], h[13], h[14], h[15]);
  }

  /** Eight bytes of a header as a radio MAC field */
  lemma MacRead(buf: seq<byte>, off: nat, h: seq<nat>, d: nat)
    requires h == Slice(buf, off, LONGEST_HEADER) && d + 8 <= LONGEST_HEADER
    ensures Get8(buf, off + d) == h[d] && Slice(buf, off + d + 1, 7) == h[d + 1..d + 8]
  {
  }

  /**
   * A header is refused exactly if its version is not 0, it has a wireless field whose length byte
   * is not 4, or nothing explains its length: it is neither 2 words long, nor 4 words long with the
   * wireless bit, nor has the MAC bit.  On the data channel a keep-alive has no wireless field; on
   * the control channel only a header of 4 words has one, and it raises the data flag.
   */
  lemma RefusedIff(buf: seq<byte>, off: nat, dataFlag: bool, kind: Option<nat>, h: seq<nat>)
    requires h == Slice(buf, off, LONGEST_HEADER)
    ensures var w, m, k := (h[3] / 32) % 2, (h[3] / 16) % 2, (h[3] / 8) % 2;
            var wireless := w == 1 && if dataFlag then k == 0 else h[1] / 8 == 4;
            && (ParseHeader(buf, off, dataFlag, kind).BadHeader? <==>
                  || h[0] / 16 != 0
                  || (wireless && h[8] != 4)
                  || (h[1] / 8 != 2 && !(h[1] / 8 == 4 && w == 1) && m == 0))
            && (ParseHeader(buf, off, dataFlag, kind).dataFlag <==>
                  dataFlag || (h[0] / 16 == 0 && h[1] / 8 == 4 && w == 1))
  {
    FieldsRead(buf, off, h);
    BindingRead(buf, off, h);
  }

  /** What every header that is not refused says */
  lemma FixedPartRead(buf: seq<byte>, off: nat, dataFlag: bool, kind: Option<nat>, h: seq<nat>)
    requires h == Slice(buf, off, LONGEST_HEADER) && ParseHeader(buf, off, dataFlag, kind).Header?
    ensures var v := ParseHeader(buf, off, dataFlag, kind).values;
            && v.payloadType == h[0] % 16 && v.frameType == h[2] % 2 && v.keepAlive == (h[3] / 8) % 2
            && v.isFragment == h[3] / 128 && v.last == (h[3] / 64) % 2
            && v.fragmentID == 256 * h[4] + h[5] && v.fragmentOffset == 32 * h[6] + h[7] / 8
  {
    FieldsRead(buf, off, h);
  }

  /** A keep-alive on the data channel: two bytes of message length, then the MAC if its bit is set */
  lemma KeepAliveRead(buf: seq<byte>, off: nat, kind: Option<nat>, h: seq<nat>)
    requires h == Slice(buf, off, LONGEST_HEADER) && ParseHeader(buf, off, true, kind).Header?
    requires (h[3] / 8) % 2 == 1
    ensures var r, m := ParseHeader(buf, off, true, kind), (h[3] / 16) % 2;
            && r.msgType == Some(DATA_MSG_KEEP_ALIVE) && r.offset == off + 10 + 8 * m
            && r.values.binding == None
            && r.values.radioMac == if m == 1 then Some(RadioMac(h[10], h[11..18])) else None
  {
    FieldsRead(buf, off, h);
    MacRead(buf, off, h, 10);
  }

  /** A frame on the data channel without a wireless field */
  lemma PlainDataRead(buf: seq<byte>, off: nat, kind: Option<nat>, h: seq<nat>)
    requires h == Slice(buf, off, LONGEST_HEADER) && ParseHeader(buf, off, true, kind).Header?
    requires (h[3] / 8) % 2 == 0 && (h[3] / 32) % 2 == 0
    ensures var r, m := ParseHeader(buf, off, true, kind), (h[3] / 16) % 2;
            && r.msgType == Some(if h[2] % 2 == 1 then IEEE_802_11_FRAME else IEEE_802_3_FRAME)
            && r.offset == off + 8 + 8 * m && r.values.binding == None
            && r.values.radioMac == if m == 1 then Some(RadioMac(h[8], h[9..16])) else None
  {
    FieldsRead(buf, off, h);
    MacRead(buf, off, h, 8);
  }

  /**
   * A frame on the data channel with a wireless field: signal strength, signal to noise ratio, and
   * a data rate whose high byte stands in the first word and whose low byte ends the second.  An
   * 802.11 frame is one; otherwise a high byte of 255 announces statistics and one of 0 a frame.
   */
  lemma WirelessDataRead(buf: seq<byte>, off: nat, kind: Option<nat>, h: seq<nat>)
    requires h == Slice(buf, off, LONGEST_HEADER) && ParseHeader(buf, off, true, kind).Header?
    requires (h[3] / 8) % 2 == 0 && (h[3] / 32) % 2 == 1
    ensures var r, m := ParseHeader(buf, off, true, kind), (h[3] / 16) % 2;
            && r.values.binding == Some(BindingValues(h[9], h[10], 256 * h[11] + h[15]))
            && (h[2] % 2 == 1 ==> r.msgType == Some(IEEE_802_11_FRAME))
            && (h[2] % 2 == 0 && h[11] == 255 && h[10] == 1 ==> r.msgType == Some(DATA_MSG_FREQ_STATS))
            && (h[2] % 2 == 0 && h[11] == 255 && h[10] != 1 ==> r.msgType == Some(DATA_MSG_STATS))
            && (h[2] % 2 == 0 && h[11] == 0 ==> r.msgType == Some(DATA_MSG_FRAME))
            && (h[2] % 2 == 0 && 0 < h[11] < 255 ==> r.msgType == kind)
            && r.offset == off + 16 + 8 * m
            && r.values.radioMac == if m == 1 then Some(RadioMac(h[16], h[17..24])) else None
  {
    FieldsRead(buf, off, h);
    BindingRead(buf, off, h);
    MacRead(buf, off, h, 16);
  }

  /** A header of 4 words with the wireless bit on the control channel: the same field, and never a MAC */
  lemma WirelessControlRead(buf: seq<byte>, off: nat, kind: Option<nat>, h: seq<nat>)
    requires h == Slice(buf, off, LONGEST_HEADER) && ParseHeader(buf, off, false, kind).Header?
    requires h[1] / 8 == 4 && (h[3] / 32) % 2 == 1
    ensures var r := ParseHeader(buf, off, false, kind);
            && r.values.binding == Some(BindingValues(h[9], h[10], 256 * h[11] + h[15]))
            && (h[11] == 255 && h[10] == 1 ==> r.msgType == Some(DATA_MSG_FREQ_STATS))
            && (h[11] == 255 && h[10] != 1 ==> r.msgType == Some(DATA_MSG_STATS))
            && (h[11] == 0 ==> r.msgType == Some(DATA_MSG_FRAME))
            && (0 < h[11] < 255 ==> r.msgType == kind)
            && r.offset == off + 16 && r.values.radioMac == None
  {
    FieldsRead(buf, off, h);
    BindingRead(buf, off, h);
  }

  /** Any other header on the control channel */
  lemma PlainControlRead(buf: seq<byte>, off: nat, kind: Option<nat>, h: seq<nat>)
    requires h == Slice(buf, off, LONGEST_HEADER) && ParseHeader(buf, off, false, kind).Header?
    requires h[1] / 8 != 4 || (h[3] / 32) % 2 == 0
    ensures var r, m := ParseHeader(buf, off, false, kind), (h[3] / 16) % 2;
            && r.msgType == kind && r.offset == off + 8 + 8 * m && r.values.binding == None
            && r.values.radioMac == if m == 1 then Some(RadioMac(h[8], h[9..16])) else None
  {
    FieldsRead(buf, off, h);
    MacRead(buf, off, h, 8);
  }

  // ---------------------------------------------------------------- what a sender writes

  /** The fields of the first word that HeaderRoundTrip has no use for */
  lemma UnusedFields(v: HeaderValues, macPresent: bool, w: nat)
    requires w == SetAll(FirstWord(v, macPresent))
    ensures GetField(w, RID) == 0 && GetField(w, WBID) == 1 && GetField(w, FLAGS) == 0
  {
    var s := FirstWord(v, macPresent);
    HeaderIsWellLaidOut(v, macPresent);
    SmallPowers();
    SettingReadBack(s, 3, Setting(RID, 0));
    SettingReadBack(s, 4, Setting(WBID, 1));
    SettingReadBack(s, 11, Setting(FLAGS, 0));
  }

  lemma ReservedIsZero(v: HeaderValues, w: nat)
    requires w == SetAll(SecondWord(v))
    ensures GetField(w, RESERVED) == 0
  {
    HeaderIsWellLaidOut(v, false);
    SmallPowers();
    SettingReadBack(SecondWord(v), 2, Setting(RESERVED, 0));
  }

  lemma BytesOfHalf(v: nat)
    requires v < 0x1_0000
    ensures var p: seq<nat> := Put16(v); p[0] * 0x100 + p[1] == v
  {
  }

  lemma BytesOfWord(w: nat)
    requires w < 0x1_0000_0000
    ensures var p := Put32(w); IsWord(w, p[0], p[1], p[2], p[3])
  {
    BytesOfHalf(w / 0x1_0000);
    BytesOfHalf(w % 0x1_0000);
    SameLowHalf(w);
  }

  lemma SameLowHalf(w: nat)
    ensures Put16(w) == Put16(w % 0x1_0000)
  {
    var q, r := w / 0x1_0000, w % 0x1_0000;
    assert w == 0x1_0000 * q + r;
    assert w / 0x100 == 0x100 * q + r / 0x100;
  }

  /** The bytes that hold version and type, header length and radio, binding and frame type */
  lemma FirstBytesAre(a: byte, b: byte, c: byte, typ: nat, units: nat, frame: nat)
    requires a / 16 == 0 && a % 16 == typ && b / 8 == units && (b % 8) * 4 + c / 64 == 0
    requires (c / 2) % 32 == 1 && c % 2 == frame
    ensures a == typ && b == 8 * units && c == 2 + frame
  {
  }

  /** A byte of eight bits */
  lemma ByteOfBits(d: byte, f: nat, l: nat, m: nat)
    requires d / 128 == f && (d / 64) % 2 == l && (d / 32) % 2 == 0
    requires (d / 16) % 2 == m && (d / 8) % 2 == 0 && d % 8 == 0
    ensures d == 128 * f + 64 * l + 16 * m
  {
  }

  lemma FirstWordBytes(v: HeaderValues, present: bool)
    requires 0 <= v.isFragment < 2 && 0 <= v.last < 2
    ensures Put32(SetAll(FirstWord(v, present))) ==
            [ if v.payloadType == 0 then 0 else 1, if present then 32 else 16, if v.frameType == 1 then 3 else 2,
              128 * v.isFragment + 64 * v.last + if present then 16 else 0 ]
  {
    var w := SetAll(FirstWord(v, present));
    SetAllIsWord(FirstWord(v, present));
    FirstWordFields(v, present, w);
    UnusedFields(v, present, w);
    var p := Put32(w);
    BytesOfWord(w);
    FirstWordDigits(w, p[0], p[1], p[2], p[3]);
    FirstBytesAre(p[0], p[1], p[2], PayloadBit(v), HeaderUnits(present), TypeBit(v));
    ByteOfBits(p[3], v.isFragment, v.last, MacBit(present));
    assert p == [p[0], p[1], p[2], p[3]];
  }

  lemma OffsetBytes(o: nat, x: nat, c: byte, d: byte)
    requires x == o % 8192 && x == c * 32 + d / 8 && d % 8 == 0
    ensures c == x / 32 && d == (o % 32) * 8
  {
    assert x % 32 == o % 32;
  }

  lemma IdentifierBytes(id: nat, a: byte, b: byte)
    requires id == a * 256 + b
    ensures a == id / 256 && b == id % 256
  {
  }

  lemma SecondWordBytes(v: HeaderValues)
    requires 0 <= v.fragmentID < 0x1_0000 && 0 <= v.fragmentOffset < 0x1_0000_0000
    ensures Put32(SetAll(SecondWord(v))) ==
            [ v.fragmentID / 256, v.fragmentID % 256, (v.fragmentOffset % 8192) / 32, (v.fragmentOffset % 32) * 8 ]
  {
    var w := SetAll(SecondWord(v));
    SetAllIsWord(SecondWord(v));
    SecondWordFields(v, w);
    ReservedIsZero(v, w);
    var p := Put32(w);
    BytesOfWord(w);
    SecondWordDigits(w, p[0], p[1], p[2], p[3]);
    IdentifierBytes(v.fragmentID, p[0], p[1]);
    OffsetBytes(v.fragmentOffset, v.fragmentOffset % 8192, p[2], p[3]);
    assert p == [p[0], p[1], p[2], p[3]];
  }

  /** The header that is assembled, byte by byte */
  lemma HeaderBytesAre(v: HeaderValues, mac: Mac)
    requires 0 <= v.isFragment < 2 && 0 <= v.last < 2
    requires 0 <= v.fragmentID < 0x1_0000 && 0 <= v.fragmentOffset < 0x1_0000_0000
    ensures var present := exists i :: 0 <= i < ETH_ALEN && mac[i] != 0;
            HeaderBytes(v, mac) ==
            [ if v.payloadType == 0 then 0 else 1, if present then 32 else 16, if v.frameType == 1 then 3 else 2,
              128 * v.isFragment + 64 * v.last + if present then 16 else 0 ]
            + [ v.fragmentID / 256, v.fragmentID % 256, (v.fragmentOffset % 8192) / 32, (v.fragmentOffset % 32) * 8 ]
            + if present then [6] + mac + [0] else []
  {
    FirstWordBytes(v, MacPresent(mac));
    SecondWordBytes(v);
  }
}
