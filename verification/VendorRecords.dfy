/**
 * The two message elements that hold a list of vendor records, WTP Board Data and WTP
 * Descriptor: a first loop counts the records, a second one reads as many into an array.
 */
module VendorRecords {
  import opened Wire
  import opened Wrappers

  datatype VendorInfo = VendorInfo(vendorIdentifier: nat, typ: nat, value: seq<byte>)

  /**
   * The record at an offset.  In WTP Board Data all records share the vendor identifier that
   * precedes them; in WTP Descriptor each has its own.
   */
  function InfoAt(buf: seq<byte>, off: nat, shared: Option<nat>): VendorInfo {
    var at := off + IDSize(shared);
    VendorInfo(IDAt(buf, off, shared), Get16(buf, at), Slice(buf, at + 4, Get16(buf, at + 2)))
  }

  function IDAt(buf: seq<byte>, off: nat, shared: Option<nat>): nat {
    if shared.Some? then shared.value else Get32(buf, off)
  }

  function IDSize(shared: Option<nat>): nat {
    if shared.Some? then 0 else 4
  }

  function HeaderSize(shared: Option<nat>): nat {
    IDSize(shared) + 4
  }

  function Size(info: VendorInfo, shared: Option<nat>): nat {
    HeaderSize(shared) + |info.value|
  }

  function TotalSize(infos: seq<VendorInfo>, shared: Option<nat>): nat {
    if infos == [] then 0 else Size(infos[0], shared) + TotalSize(infos[1..], shared)
  }

  /** The records that loops meet which stop once they have passed `left` bytes */
  function InfosFrom(buf: seq<byte>, off: nat, left: int, shared: Option<nat>): seq<VendorInfo>
    decreases left
  {
    if left <= 0 then [] else
    var info := InfoAt(buf, off, shared);
    [info] + InfosFrom(buf, off + Size(info, shared), left - Size(info, shared), shared)
  }

  // ---------------------------------------------------------------- the two loops

  method RecordHeader(m: ProtocolMessage, shared: Option<nat>) returns (id: nat, typ: nat, length: nat)
    modifies m`offset
    ensures m.offset == old(m.offset) + HeaderSize(shared)
    ensures InfoAt(m.msg[..], old(m.offset), shared) == VendorInfo(id, typ, Slice(m.msg[..], m.offset, length))
  {
    if shared.Some? {
      id := shared.value;
    } else {
      id := m.Retrieve32();
    }
    typ := m.Retrieve16();
    length := m.Retrieve16();
  }

  /** The first loop has counted some records and stands before the rest, which end at `end`. */
  ghost predicate Counting(buf: seq<byte>, oldOffset: nat, len: nat, shared: Option<nat>,
                           off: nat, rest: seq<VendorInfo>, end: nat)
  {
    && oldOffset <= off
    && rest == InfosFrom(buf, off, len - (off - oldOffset), shared)
    && off + TotalSize(rest, shared) == end
  }

  lemma OneCounted(buf: seq<byte>, oldOffset: nat, len: nat, shared: Option<nat>,
                   off: nat, rest: seq<VendorInfo>, end: nat)
    requires Counting(buf, oldOffset, len, shared, off, rest, end) && off - oldOffset < len
    ensures rest != [] && rest[0] == InfoAt(buf, off, shared)
    ensures Counting(buf, oldOffset, len, shared, off + Size(rest[0], shared), rest[1..], end)
  {
  }

  /** One turn of the first loop */
  method CountOne(m: ProtocolMessage, oldOffset: nat, len: nat, shared: Option<nat>,
                  ghost buf: seq<byte>, ghost rest: seq<VendorInfo>, ghost end: nat)
    requires m.msg[..] == buf && m.offset - oldOffset < len
    requires Counting(buf, oldOffset, len, shared, m.offset, rest, end)
    modifies m`offset
    ensures m.offset > old(m.offset)
    ensures rest != [] && Counting(buf, oldOffset, len, shared, m.offset, rest[1..], end)
  {
    OneCounted(buf, oldOffset, len, shared, m.offset, rest, end);
    var _, _, length := RecordHeader(m, shared);
    m.offset := m.offset + length;
  }

  /** The first loop */
  method CountInfos(m: ProtocolMessage, oldOffset: nat, len: nat, shared: Option<nat>) returns (count: nat)
    requires oldOffset <= m.offset
    modifies m`offset
    ensures var infos := InfosFrom(m.msg[..], old(m.offset), len - (old(m.offset) - oldOffset), shared);
            count == |infos| && m.offset == old(m.offset) + TotalSize(infos, shared)
  {
    ghost var buf := m.msg[..];
    ghost var infos := InfosFrom(buf, m.offset, len - (m.offset - oldOffset), shared);
    ghost var rest, end := infos, m.offset + TotalSize(infos, shared);
    count := 0;
    while m.offset - oldOffset < len
      invariant m.msg[..] == buf && Counting(buf, oldOffset, len, shared, m.offset, rest, end)
      invariant count + |rest| == |infos|
      decreases len - (m.offset - oldOffset)
    {
      CountOne(m, oldOffset, len, shared, buf, rest, end);
      count := count + 1;
      rest := rest[1..];
    }
  }

  /** The records stand one behind the other from an offset on. */
  predicate InfosAt(buf: seq<byte>, off: nat, infos: seq<VendorInfo>, shared: Option<nat>)
    decreases |infos|
  {
    infos == [] ||
    (InfoAt(buf, off, shared) == infos[0] && InfosAt(buf, off + Size(infos[0], shared), infos[1..], shared))
  }

  lemma {:induction false} InfosFromStand(buf: seq<byte>, off: nat, left: int, shared: Option<nat>)
    ensures InfosAt(buf, off, InfosFrom(buf, off, left, shared), shared)
    decreases left
  {
    if left > 0 {
      var info := InfoAt(buf, off, shared);
      InfosFromStand(buf, off + Size(info, shared), left - Size(info, shared), shared);
    }
  }

  /** The second loop stands before the rest of the records. */
  ghost predicate Reading(buf: seq<byte>, off: nat, rest: seq<VendorInfo>, shared: Option<nat>, end: nat) {
    InfosAt(buf, off, rest, shared) && off + TotalSize(rest, shared) == end
  }

  lemma OneRead(buf: seq<byte>, off: nat, all: seq<VendorInfo>, i: nat, shared: Option<nat>, end: nat)
    requires i < |all| && Reading(buf, off, all[i..], shared, end)
    ensures InfoAt(buf, off, shared) == all[i]
    ensures Reading(buf, off + Size(all[i], shared), all[i + 1..], shared, end)
  {
    assert all[i..][1..] == all[i + 1..];
  }

  /** One turn of the second loop */
  method ReadOne(m: ProtocolMessage, shared: Option<nat>,
                 ghost buf: seq<byte>, ghost all: seq<VendorInfo>, ghost i: nat, ghost end: nat)
    returns (info: VendorInfo)
    requires i < |all| && m.msg[..] == buf && Reading(buf, m.offset, all[i..], shared, end)
    modifies m`offset
    ensures info == all[i] && Reading(buf, m.offset, all[i + 1..], shared, end)
  {
    OneRead(buf, m.offset, all, i, shared, end);
    var id, typ, length := RecordHeader(m, shared);
    var value := m.RetrieveRawBytes(length);
    info := VendorInfo(id, typ, value);
  }

  /** The second loop, for as many records as were counted */
  method ReadInfos(m: ProtocolMessage, count: nat, shared: Option<nat>, ghost all: seq<VendorInfo>)
    returns (infos: array<VendorInfo>)
    requires count == |all| && InfosAt(m.msg[..], m.offset, all, shared)
    modifies m`offset
    ensures fresh(infos) && infos[..] == all && m.offset == old(m.offset) + TotalSize(all, shared)
  {
    ghost var buf, end := m.msg[..], m.offset + TotalSize(all, shared);
    infos := new VendorInfo[count];
    assert all[0..] == all;
    for i := 0 to count
      invariant m.msg[..] == buf && forall k :: 0 <= k < i ==> infos[k] == all[k]
      invariant Reading(buf, m.offset, all[i..], shared, end)
    {
      infos[i] := ReadOne(m, shared, buf, all, i, end);
    }
  }

  // ---------------------------------------------------------------- WTP Board Data

  function BoardInfos(buf: seq<byte>, off: nat, len: nat): seq<VendorInfo> {
    InfosFrom(buf, off + 4, len - 4, Some(Get32(buf, off)))
  }

  /** CWParseWTPBoardData: `first` and `second` are where the two loops end. */
  method ParseBoardData(m: ProtocolMessage, len: nat)
    returns (ok: bool, infos: array<VendorInfo>, ghost first: nat, ghost second: nat)
    modifies m`offset
    ensures var all := BoardInfos(m.msg[..], old(m.offset), len);
            && infos[..] == all && first == second == m.offset
            && (ok <==> 4 + TotalSize(all, Some(Get32(m.msg[..], old(m.offset)))) == len)
            && (ok <==> m.offset == old(m.offset) + len)
  {
    var oldOffset := m.offset;
    var vendorID := m.Retrieve32();
    var theOffset := m.offset;
    ghost var all := BoardInfos(m.msg[..], oldOffset, len);
    var count := CountInfos(m, oldOffset, len, Some(vendorID));
    first := m.offset;
    m.offset := theOffset;
    InfosFromStand(m.msg[..], theOffset, len - 4, Some(vendorID));
    infos := ReadInfos(m, count, Some(vendorID), all);
    second := m.offset;
    ok := m.offset - oldOffset == len;
  }

  // ---------------------------------------------------------------- WTP Descriptor

  datatype Encryption = Encryption(end: nat, capabilities: Option<nat>)

  /** The encryption entries: only those of the IEEE 802.11 binding have a value, and the last of these counts. */
  function EncryptionFrom(buf: seq<byte>, off: nat, n: nat, capabilities: Option<nat>): Encryption
    decreases n
  {
    if n == 0 then Encryption(off, capabilities)
    else if Get8(buf, off) == 1 then EncryptionFrom(buf, off + 3, n - 1, Some(Get16(buf, off + 1)))
    else EncryptionFrom(buf, off + 1, n - 1, capabilities)
  }

  lemma {:induction false} EncryptionMovesOn(buf: seq<byte>, off: nat, n: nat, capabilities: Option<nat>)
    ensures off + n <= EncryptionFrom(buf, off, n, capabilities).end <= off + 3 * n
    decreases n
  {
    if n > 0 {
      if Get8(buf, off) == 1 {
        EncryptionMovesOn(buf, off + 3, n - 1, Some(Get16(buf, off + 1)));
      } else {
        EncryptionMovesOn(buf, off + 1, n - 1, capabilities);
      }
    }
  }

  datatype Descriptor = Descriptor(
    maxRadios: nat, radiosInUse: nat, encCapabilities: Option<nat>, infos: seq<VendorInfo>)

  function EncryptionOf(buf: seq<byte>, off: nat): Encryption {
    EncryptionFrom(buf, off + 3, Get8(buf, off + 2), None)
  }

  function DescriptorAt(buf: seq<byte>, off: nat, len: nat): Descriptor {
    var enc := EncryptionOf(buf, off);
    Descriptor(Get8(buf, off), Get8(buf, off + 1), enc.capabilities,
               InfosFrom(buf, enc.end, len - (enc.end - off), None))
  }

  function DescriptorSize(buf: seq<byte>, off: nat, len: nat): int {
    EncryptionOf(buf, off).end - off + TotalSize(DescriptorAt(buf, off, len).infos, None)
  }

  method ReadEncryption(m: ProtocolMessage) returns (capabilities: Option<nat>)
    modifies m`offset
    ensures Encryption(m.offset, capabilities) ==
            EncryptionFrom(m.msg[..], old(m.offset) + 1, Get8(m.msg[..], old(m.offset)), None)
  {
    ghost var buf, start := m.msg[..], m.offset;
    var countenc: nat := m.Retrieve8();
    capabilities := None;
    for i := 0 to countenc
      invariant m.msg[..] == buf
      invariant EncryptionFrom(buf, m.offset, countenc - i, capabilities) ==
                EncryptionFrom(buf, start + 1, countenc, None)
    {
      var binding := m.Retrieve8();
      if binding == 1 {
        var value := m.Retrieve16();
        capabilities := Some(value);
      }
    }
  }

  /** CWParseWTPDescriptor: `first` and `second` are where the two loops over the records end. */
  method ParseDescriptor(m: ProtocolMessage, len: nat)
    returns (ok: bool, maxRadios: nat, radiosInUse: nat, encCapabilities: Option<nat>, infos: array<VendorInfo>,
             ghost first: nat, ghost second: nat)
    modifies m`offset
    ensures Descriptor(maxRadios, radiosInUse, encCapabilities, infos[..]) ==
            DescriptorAt(m.msg[..], old(m.offset), len)
    ensures first == second == m.offset
    ensures ok <==> DescriptorSize(m.msg[..], old(m.offset), len) == len
    ensures ok <==> m.offset == old(m.offset) + len
  {
    ghost var buf := m.msg[..];
    var oldOffset := m.offset;
    maxRadios := m.Retrieve8();
    radiosInUse := m.Retrieve8();
    encCapabilities := ReadEncryption(m);
    EncryptionMovesOn(buf, oldOffset + 3, Get8(buf, oldOffset + 2), None);
    var theOffset := m.offset;
    ghost var all := DescriptorAt(buf, oldOffset, len).infos;
    var count := CountInfos(m, oldOffset, len, None);
    first := m.offset;
    m.offset := theOffset;
    InfosFromStand(buf, theOffset, len - (theOffset - oldOffset), None);
    infos := ReadInfos(m, count, None, all);
    second := m.offset;
    ok := m.offset - oldOffset == len;
  }

  // ---------------------------------------------------------------- what is accepted

  function ValueBytes(typ: nat, value: seq<byte>): (s: seq<byte>)
    ensures |s| == 4 + |value|
  {
    Put16(typ) + Put16(|value|) + value
  }

  function IDBytes(id: nat, shared: Option<nat>): (s: seq<byte>)
    ensures |s| == IDSize(shared)
  {
    if shared.Some? then [] else Put32(id)
  }

  function InfoBytes(info: VendorInfo, shared: Option<nat>): (s: seq<byte>)
    ensures |s| == Size(info, shared)
  {
    IDBytes(info.vendorIdentifier, shared) + ValueBytes(info.typ, info.value)
  }

  function InfosBytes(infos: seq<VendorInfo>, shared: Option<nat>): seq<byte> {
    if infos == [] then [] else InfoBytes(infos[0], shared) + InfosBytes(infos[1..], shared)
  }

  predicate FitsOne(info: VendorInfo, shared: Option<nat>) {
    && info.typ < 0x1_0000 && |info.value| < 0x1_0000 && info.vendorIdentifier < 0x1_0000_0000
    && (shared.Some? ==> info.vendorIdentifier == shared.value)
  }

  predicate Fits(infos: seq<VendorInfo>, shared: Option<nat>) {
    forall i :: 0 <= i < |infos| ==> FitsOne(infos[i], shared)
  }

  lemma ValueReadBack(buf: seq<byte>, at: nat, typ: nat, value: seq<byte>)
    requires Holds(buf, at, ValueBytes(typ, value)) && typ < 0x1_0000 && |value| < 0x1_0000
    ensures Get16(buf, at) == typ && Get16(buf, at + 2) == |value| && Slice(buf, at + 4, |value|) == value
  {
    var a, b := Put16(typ), Put16(|value|);
    HoldsParts(buf, at, a + b, value);
    HoldsParts(buf, at, a, b);
    GetPut16(buf, at, typ);
    GetPut16(buf, at + 2, |value|);
    SliceHeld(buf, at + 4, value);
  }

  lemma IDReadBack(buf: seq<byte>, off: nat, id: nat, shared: Option<nat>)
    requires Holds(buf, off, IDBytes(id, shared))
    requires id < 0x1_0000_0000 && (shared.Some? ==> id == shared.value)
    ensures IDAt(buf, off, shared) == id
  {
    if shared.None? { GetPut32(buf, off, id); }
  }

  lemma InfoReadBack(buf: seq<byte>, off: nat, info: VendorInfo, shared: Option<nat>)
    requires Holds(buf, off, InfoBytes(info, shared)) && FitsOne(info, shared)
    ensures InfoAt(buf, off, shared) == info
  {
    HoldsParts(buf, off, IDBytes(info.vendorIdentifier, shared), ValueBytes(info.typ, info.value));
    IDReadBack(buf, off, info.vendorIdentifier, shared);
    ValueReadBack(buf, off + IDSize(shared), info.typ, info.value);
  }

  lemma HoldsInfos(buf: seq<byte>, off: nat, infos: seq<VendorInfo>, shared: Option<nat>)
    requires infos != [] && FitsOne(infos[0], shared) && Holds(buf, off, InfosBytes(infos, shared))
    ensures InfoAt(buf, off, shared) == infos[0]
    ensures Holds(buf, off + Size(infos[0], shared), InfosBytes(infos[1..], shared))
  {
    HoldsParts(buf, off, InfoBytes(infos[0], shared), InfosBytes(infos[1..], shared));
    InfoReadBack(buf, off, infos[0], shared);
  }

  lemma RestFits(infos: seq<VendorInfo>, shared: Option<nat>)
    requires infos != [] && Fits(infos, shared)
    ensures FitsOne(infos[0], shared) && Fits(infos[1..], shared)
  {
  }

  lemma {:induction false} BytesStand(buf: seq<byte>, off: nat, infos: seq<VendorInfo>, shared: Option<nat>)
    requires Holds(buf, off, InfosBytes(infos, shared)) && Fits(infos, shared)
    ensures InfosAt(buf, off, infos, shared)
    decreases |infos|
  {
    if infos != [] {
      RestFits(infos, shared);
      HoldsInfos(buf, off, infos, shared);
      BytesStand(buf, off + Size(infos[0], shared), infos[1..], shared);
    }
  }

  lemma InfosStep(buf: seq<byte>, off: nat, infos: seq<VendorInfo>, shared: Option<nat>)
    requires infos != [] && InfoAt(buf, off, shared) == infos[0]
    requires InfosFrom(buf, off + Size(infos[0], shared), TotalSize(infos[1..], shared), shared) == infos[1..]
    ensures InfosFrom(buf, off, TotalSize(infos, shared), shared) == infos
  {
    assert [infos[0]] + infos[1..] == infos;
  }

  lemma {:induction false} StandingAreMet(buf: seq<byte>, off: nat, infos: seq<VendorInfo>, shared: Option<nat>)
    requires InfosAt(buf, off, infos, shared)
    ensures InfosFrom(buf, off, TotalSize(infos, shared), shared) == infos
    decreases |infos|
  {
    if infos != [] {
      StandingAreMet(buf, off + Size(infos[0], shared), infos[1..], shared);
      InfosStep(buf, off, infos, shared);
    }
  }

  lemma InfosReadBack(buf: seq<byte>, off: nat, infos: seq<VendorInfo>, shared: Option<nat>)
    requires Holds(buf, off, InfosBytes(infos, shared)) && Fits(infos, shared)
    ensures InfosFrom(buf, off, TotalSize(infos, shared), shared) == infos
  {
    BytesStand(buf, off, infos, shared);
    StandingAreMet(buf, off, infos, shared);
  }

  /** The length of board data with these records */
  function BoardLength(id: nat, infos: seq<VendorInfo>): nat {
    4 + TotalSize(infos, Some(id))
  }

  lemma BoardInfosAre(buf: seq<byte>, off: nat, id: nat, infos: seq<VendorInfo>)
    requires Get32(buf, off) == id && InfosFrom(buf, off + 4, TotalSize(infos, Some(id)), Some(id)) == infos
    ensures BoardInfos(buf, off, BoardLength(id, infos)) == infos
  {
  }

  /** The identifier stands before the records. */
  lemma BoardParts(buf: seq<byte>, off: nat, id: nat, rest: seq<byte>)
    requires id < 0x1_0000_0000 && Holds(buf, off, Put32(id) + rest)
    ensures Get32(buf, off) == id && Holds(buf, off + 4, rest)
  {
    HoldsParts(buf, off, Put32(id), rest);
    GetPut32(buf, off, id);
  }

  /** Board data with any list of records is read back, every record with the one vendor identifier. */
  lemma BoardRoundTrip(buf: seq<byte>, off: nat, id: nat, infos: seq<VendorInfo>)
    requires Fits(infos, Some(id)) && id < 0x1_0000_0000
    requires Holds(buf, off, Put32(id) + InfosBytes(infos, Some(id)))
    ensures BoardInfos(buf, off, BoardLength(id, infos)) == infos
  {
    BoardParts(buf, off, id, InfosBytes(infos, Some(id)));
    InfosReadBack(buf, off + 4, infos, Some(id));
    BoardInfosAre(buf, off, id, infos);
  }

  /** The length of a descriptor with these records */
  function DescriptorLength(buf: seq<byte>, off: nat, infos: seq<VendorInfo>): int {
    EncryptionOf(buf, off).end - off + TotalSize(infos, None)
  }

  lemma DescriptorInfosAre(buf: seq<byte>, off: nat, infos: seq<VendorInfo>)
    requires EncryptionOf(buf, off).end >= off
    requires InfosFrom(buf, EncryptionOf(buf, off).end, TotalSize(infos, None), None) == infos
    ensures var len := DescriptorLength(buf, off, infos);
            DescriptorAt(buf, off, len).infos == infos && DescriptorSize(buf, off, len) == len
  {
  }

  lemma EncryptionEnds(buf: seq<byte>, off: nat)
    ensures EncryptionOf(buf, off).end >= off
  {
    EncryptionMovesOn(buf, off + 3, Get8(buf, off + 2), None);
  }

  /** Records behind the encryption entries of a descriptor are read back; it is accepted at exactly their length. */
  lemma DescriptorReadBack(buf: seq<byte>, off: nat, infos: seq<VendorInfo>)
    requires Fits(infos, None) && Holds(buf, EncryptionOf(buf, off).end, InfosBytes(infos, None))
    ensures EncryptionOf(buf, off).end >= off
    ensures var len := DescriptorLength(buf, off, infos);
            DescriptorAt(buf, off, len).infos == infos && DescriptorSize(buf, off, len) == len
  {
    EncryptionEnds(buf, off);
    InfosReadBack(buf, EncryptionOf(buf, off).end, infos, None);
    DescriptorInfosAre(buf, off, infos);
  }

  // ---------------------------------------------------------------- values

  /** One record, as it is sent: its own vendor identifier unless all share one, type, length, value */
  lemma RecordRead(buf: seq<byte>, off: nat, id: nat, typ: nat, value: seq<byte>, own: bool)
    requires id < 0x1_0000_0000 && typ < 0x1_0000 && |value| < 0x1_0000
    requires Holds(buf, off, (if own then Put32(id) else []) + (Put16(typ) + Put16(|value|) + value))
    ensures InfoAt(buf, off, if own then None else Some(id)) == VendorInfo(id, typ, value)
  {
    InfoReadBack(buf, off, VendorInfo(id, typ, value), if own then None else Some(id));
  }

  /** An encryption entry: a binding, and for that of IEEE 802.11 its capabilities */
  datatype EncryptionEntry = EncryptionEntry(binding: nat, capabilities: nat)

  function EntriesBytes(entries: seq<EncryptionEntry>): seq<byte> {
    if entries == [] then []
    else
      (Put8(entries[0].binding) + if entries[0].binding == 1 then Put16(entries[0].capabilities) else [])
      + EntriesBytes(entries[1..])
  }

  predicate AllSendable(entries: seq<EncryptionEntry>) {
    forall i :: 0 <= i < |entries| ==> entries[i].binding < 256 && entries[i].capabilities < 0x1_0000
  }

  /** The capabilities of the last entry of that binding */
  function LastCapabilities(entries: seq<EncryptionEntry>, before: Option<nat>): Option<nat> {
    if entries == [] then before
    else if entries[|entries| - 1].binding == 1 then Some(entries[|entries| - 1].capabilities)
    else LastCapabilities(entries[..|entries| - 1], before)
  }

  lemma {:induction false} LaterCapabilities(e: EncryptionEntry, rest: seq<EncryptionEntry>, before: Option<nat>)
    ensures LastCapabilities([e] + rest, before) ==
            LastCapabilities(rest, if e.binding == 1 then Some(e.capabilities) else before)
    decreases |rest|
  {
    if rest == [] {
      assert [e] + rest == [e];
    } else {
      LaterCapabilities(e, rest[..|rest| - 1], before);
      assert ([e] + rest)[..|rest|] == [e] + rest[..|rest| - 1];
    }
  }

  lemma FirstEntryRead(buf: seq<byte>, off: nat, binding: nat, capabilities: nat, rest: seq<byte>)
    requires binding < 256 && capabilities < 0x1_0000
    requires Holds(buf, off, (Put8(binding) + if binding == 1 then Put16(capabilities) else []) + rest)
    ensures Get8(buf, off) == binding
    ensures binding == 1 ==> Get16(buf, off + 1) == capabilities && Holds(buf, off + 3, rest)
    ensures binding != 1 ==> Holds(buf, off + 1, rest)
  {
    var more := if binding == 1 then Put16(capabilities) else [];
    HoldsParts(buf, off, Put8(binding) + more, rest);
    HoldsParts(buf, off, Put8(binding), more);
    GetPut8(buf, off, binding);
    if binding == 1 { GetPut16(buf, off + 1, capabilities); }
  }

  lemma {:induction false} EntriesRead(buf: seq<byte>, off: nat, entries: seq<EncryptionEntry>, before: Option<nat>)
    requires AllSendable(entries) && Holds(buf, off, EntriesBytes(entries))
    ensures EncryptionFrom(buf, off, |entries|, before) ==
            Encryption(off + |EntriesBytes(entries)|, LastCapabilities(entries, before))
    decreases |entries|
  {
    if entries != [] {
      var e, rest := entries[0], entries[1..];
      assert entries == [e] + rest;
      FirstEntryRead(buf, off, e.binding, e.capabilities, EntriesBytes(rest));
      LaterCapabilities(e, rest, before);
      if e.binding == 1 {
        EntriesRead(buf, off + 3, rest, Some(e.capabilities));
      } else {
        EntriesRead(buf, off + 1, rest, before);
      }
    }
  }

  lemma DescriptorParts(
    buf: seq<byte>, off: nat, maxRadios: nat, inUse: nat, n: nat, entries: seq<byte>, records: seq<byte>)
    requires maxRadios < 256 && inUse < 256 && n < 256
    requires Holds(buf, off, Put8(maxRadios) + (Put8(inUse) + (Put8(n) + (entries + records))))
    ensures Get8(buf, off) == maxRadios && Get8(buf, off + 1) == inUse && Get8(buf, off + 2) == n
    ensures Holds(buf, off + 3, entries) && Holds(buf, off + 3 + |entries|, records)
  {
    HoldsParts(buf, off, Put8(maxRadios), Put8(inUse) + (Put8(n) + (entries + records)));
    HoldsParts(buf, off + 1, Put8(inUse), Put8(n) + (entries + records));
    HoldsParts(buf, off + 2, Put8(n), entries + records);
    HoldsParts(buf, off + 3, entries, records);
    GetPut8(buf, off, maxRadios);
    GetPut8(buf, off + 1, inUse);
    GetPut8(buf, off + 2, n);
  }

  lemma DescriptorIs(buf: seq<byte>, off: nat, maxRadios: nat, inUse: nat, enc: Encryption, infos: seq<VendorInfo>)
    requires Get8(buf, off) == maxRadios && Get8(buf, off + 1) == inUse && EncryptionOf(buf, off) == enc
    requires DescriptorLength(buf, off, infos) >= 0
    requires DescriptorAt(buf, off, DescriptorLength(buf, off, infos)).infos == infos
    ensures DescriptorAt(buf, off, DescriptorLength(buf, off, infos)) ==
            Descriptor(maxRadios, inUse, enc.capabilities, infos)
  {
  }

  lemma HeldRecordsRead(buf: seq<byte>, off: nat, enc: Encryption, infos: seq<VendorInfo>)
    requires EncryptionOf(buf, off) == enc && Fits(infos, None) && Holds(buf, enc.end, InfosBytes(infos, None))
    ensures var len := DescriptorLength(buf, off, infos);
            len >= 0 && len == enc.end - off + TotalSize(infos, None)
            && DescriptorAt(buf, off, len).infos == infos && DescriptorSize(buf, off, len) == len
  {
    DescriptorReadBack(buf, off, infos);
  }

  /** A descriptor with any values is read back: radios, the last 802.11 capabilities, and all records. */
  lemma DescriptorRoundTrip(
    buf: seq<byte>, off: nat, maxRadios: nat, inUse: nat, entries: seq<EncryptionEntry>, infos: seq<VendorInfo>)
    requires maxRadios < 256 && inUse < 256 && |entries| < 256 && AllSendable(entries) && Fits(infos, None)
    requires Holds(buf, off, Put8(maxRadios) + (Put8(inUse) + (Put8(|entries|)
                             + (EntriesBytes(entries) + InfosBytes(infos, None)))))
    ensures var len := 3 + |EntriesBytes(entries)| + TotalSize(infos, None);
            && DescriptorAt(buf, off, len) == Descriptor(maxRadios, inUse, LastCapabilities(entries, None), infos)
            && DescriptorSize(buf, off, len) == len
  {
    var enc := Encryption(off + 3 + |EntriesBytes(entries)|, LastCapabilities(entries, None));
    DescriptorParts(buf, off, maxRadios, inUse, |entries|, EntriesBytes(entries), InfosBytes(infos, None));
    EntriesRead(buf, off + 3, entries, None);
    HeldRecordsRead(buf, off, enc, infos);
    DescriptorIs(buf, off, maxRadios, inUse, enc, infos);
  }

  // ---------------------------------------------------------------- how far the loops go

  /** The loops go on behind the first record. */
  lemma MeetsRest(buf: seq<byte>, off: nat, first: VendorInfo, rest: seq<VendorInfo>, left: int, shared: Option<nat>)
    requires InfoAt(buf, off, shared) == first
    ensures InfosFrom(buf, off, left, shared) == [first] + rest <==>
            left > 0 && InfosFrom(buf, off + Size(first, shared), left - Size(first, shared), shared) == rest
  {
    if left > 0 {
      SameFirst(first, InfosFrom(buf, off + Size(first, shared), left - Size(first, shared), shared), rest);
    }
  }

  lemma TotalOfFirst(first: VendorInfo, rest: seq<VendorInfo>, shared: Option<nat>)
    ensures TotalSize([first] + rest, shared) == Size(first, shared) + TotalSize(rest, shared)
  {
    assert ([first] + rest)[1..] == rest;
  }

  /** The length without the last record */
  function AllButLast(infos: seq<VendorInfo>, shared: Option<nat>): int
    requires infos != []
  {
    TotalSize(infos, shared) - Size(infos[|infos| - 1], shared)
  }

  lemma AllButLastOfFirst(first: VendorInfo, rest: seq<VendorInfo>, shared: Option<nat>)
    ensures rest != [] ==> AllButLast([first] + rest, shared) == Size(first, shared) + AllButLast(rest, shared) > 0
    ensures rest == [] ==> AllButLast([first] + rest, shared) == 0
  {
    TotalOfFirst(first, rest, shared);
    if rest != [] { LastWithinTotal(rest, shared); }
  }

  /** Whether the loops meet records exactly for the lengths that end inside the last of them or at its end */
  ghost predicate MetExactly(buf: seq<byte>, off: nat, infos: seq<VendorInfo>, left: int, shared: Option<nat>)
    requires infos != []
  {
    InfosFrom(buf, off, left, shared) == infos <==> AllButLast(infos, shared) < left <= TotalSize(infos, shared)
  }

  lemma OneMetExactly(buf: seq<byte>, off: nat, first: VendorInfo, left: int, shared: Option<nat>)
    requires InfoAt(buf, off, shared) == first
    ensures MetExactly(buf, off, [first] + [], left, shared)
  {
    TotalOfFirst(first, [], shared);
    AllButLastOfFirst(first, [], shared);
    MeetsRest(buf, off, first, [], left, shared);
    NothingMetIff(buf, off + Size(first, shared), left - Size(first, shared), shared);
  }

  lemma AlsoMetExactly(
    buf: seq<byte>, off: nat, first: VendorInfo, rest: seq<VendorInfo>, left: int, shared: Option<nat>)
    requires InfoAt(buf, off, shared) == first && rest != []
    requires MetExactly(buf, off + Size(first, shared), rest, left - Size(first, shared), shared)
    ensures MetExactly(buf, off, [first] + rest, left, shared)
  {
    TotalOfFirst(first, rest, shared);
    AllButLastOfFirst(first, rest, shared);
    MeetsRest(buf, off, first, rest, left, shared);
  }

  /** The loops meet these records exactly for the lengths that end inside the last of them or at its end. */
  lemma {:induction false} MeetsIff(buf: seq<byte>, off: nat, infos: seq<VendorInfo>, left: int, shared: Option<nat>)
    requires infos != [] && InfosAt(buf, off, infos, shared)
    ensures MetExactly(buf, off, infos, left, shared)
    decreases |infos|
  {
    var first, rest := infos[0], infos[1..];
    assert infos == [first] + rest;
    if rest == [] {
      OneMetExactly(buf, off, first, left, shared);
    } else {
      MeetsIff(buf, off + Size(first, shared), rest, left - Size(first, shared), shared);
      AlsoMetExactly(buf, off, first, rest, left, shared);
    }
  }

  lemma SameFirst(x: VendorInfo, a: seq<VendorInfo>, b: seq<VendorInfo>)
    ensures [x] + a == [x] + b <==> a == b
  {
    assert ([x] + a)[1..] == a && ([x] + b)[1..] == b;
  }

  lemma NothingMetIff(buf: seq<byte>, off: nat, left: int, shared: Option<nat>)
    ensures InfosFrom(buf, off, left, shared) == [] <==> left <= 0
  {
  }

  lemma {:induction false} LastWithinTotal(infos: seq<VendorInfo>, shared: Option<nat>)
    requires infos != []
    ensures TotalSize(infos, shared) >= Size(infos[|infos| - 1], shared) > 0
    decreases |infos|
  {
    if |infos| > 1 { LastWithinTotal(infos[1..], shared); }
  }
}
