/**
 * Cutting a message into datagrams (section 3.4 of RFC 5415): the part that
 * CWAssembleMessage and CWAssembleDataMessage share, and the data path.
 */
module Fragmentation {
  import opened Wire
  import opened Wrappers
  import opened TransportHeader

  const MAX_DTLS_HEADER_SIZE := 25
  const MAX_CAPWAP_HEADER_SIZE := 8
  const MAX_CAPWAP_HEADER_SIZE_BINDING := 16
  const CONTROL_OVERHEAD := MAX_DTLS_HEADER_SIZE + MAX_CAPWAP_HEADER_SIZE
  const DATA_OVERHEAD := MAX_CAPWAP_HEADER_SIZE_BINDING

  const MAX_FRAGMENT_ID := 65535

  /** Offsets count 8-byte units in a 13-bit field, so a fragment must start below this byte. */
  const OFFSET_LIMIT := 65536

  // ---------------------------------------------------------------- sizes

  /** Payload bytes per fragment at a path MTU; zero means: do not fragment. */
  function ChunkSize(pmtu: int, overhead: nat): nat {
    if pmtu > overhead then ((pmtu - overhead) / 8) * 8 else 0
  }

  function FragmentCount(len: nat, chunk: nat): nat {
    if chunk == 0 then 1
    else len / chunk + if len % chunk != 0 then 1 else 0
  }

  /** The last fragment starts inside the message and every fragment before it is full. */
  lemma CountBounds(len: nat, chunk: nat)
    requires chunk > 0 && len > 0
    ensures var n := FragmentCount(len, chunk);
            n >= 1 && (n - 1) * chunk < len <= n * chunk
  {
    var q, r := len / chunk, len % chunk;
    assert len == q * chunk + r;
    if r == 0 {
      assert q >= 1 && (q - 1) * chunk == q * chunk - chunk;
    } else {
      assert (q + 1) * chunk == q * chunk + chunk;
    }
  }

  /** Where fragment i starts */
  function Start(chunk: nat, i: nat): (s: nat)
    ensures chunk % 8 == 0 ==> s % 8 == 0
  {
    StartAligned(chunk, i);
    i * chunk
  }

  lemma StartAligned(chunk: nat, i: nat)
    ensures chunk % 8 == 0 ==> (i * chunk) % 8 == 0
  {
    if chunk % 8 == 0 {
      assert chunk == 8 * (chunk / 8);
      assert i * chunk == 8 * (i * (chunk / 8));
    }
  }

  lemma {:induction false} StartsGrow(chunk: nat, i: nat, j: nat)
    requires i < j
    ensures Start(chunk, i) + chunk <= Start(chunk, j)
    decreases j
  {
    assert j * chunk == (j - 1) * chunk + chunk;
    if i < j - 1 { StartsGrow(chunk, i, j - 1); }
  }

  /** What fragment i of n carries */
  function Payload(msg: seq<byte>, chunk: nat, n: nat, i: nat): (p: seq<byte>)
    requires chunk > 0 && |msg| > 0 && n == FragmentCount(|msg|, chunk) && i < n
    ensures |p| == if i < n - 1 then chunk else |msg| - Start(chunk, n - 1)
    ensures 0 < |p| <= chunk && Start(chunk, i) + |p| <= |msg|
    ensures p == msg[Start(chunk, i)..Start(chunk, i) + |p|]
  {
    CountBounds(|msg|, chunk);
    assert n * chunk == (n - 1) * chunk + chunk;
    if i < n - 1 then
      StartsGrow(chunk, i, n - 1);
      msg[Start(chunk, i)..Start(chunk, i) + chunk]
    else
      assert Start(chunk, i) == (n - 1) * chunk;
      msg[Start(chunk, i)..]
  }

  lemma NextStart(chunk: nat, i: nat)
    ensures Start(chunk, i + 1) == Start(chunk, i) + chunk
  {
    assert (i + 1) * chunk == i * chunk + chunk;
  }

  /** Each fragment ends where the next one starts, and the last one with the message. */
  lemma PayloadEnd(msg: seq<byte>, chunk: nat, n: nat, i: nat)
    requires chunk > 0 && |msg| > 0 && n == FragmentCount(|msg|, chunk) && i < n
    ensures Start(chunk, i) + |Payload(msg, chunk, n, i)| == if i < n - 1 then Start(chunk, i + 1) else |msg|
  {
    if i < n - 1 { NextStart(chunk, i); }
  }

  // ---------------------------------------------------------------- how many datagrams

  /** The fragment size is the largest multiple of 8 that fits behind the headers, and zero if none does. */
  lemma LargestUnit(pmtu: int, overhead: nat)
    ensures ChunkSize(pmtu, overhead) % 8 == 0
    ensures pmtu - overhead < 8 ==> ChunkSize(pmtu, overhead) == 0
    ensures pmtu - overhead >= 8 ==>
              0 < ChunkSize(pmtu, overhead) <= pmtu - overhead < ChunkSize(pmtu, overhead) + 8
  {
  }

  lemma SeveralParts(len: nat, chunk: nat)
    requires chunk > 0 && len > 0
    ensures FragmentCount(len, chunk) > 1 <==> len > chunk
  {
    CountBounds(len, chunk);
    var n := FragmentCount(len, chunk);
    assert (n - 1) * chunk == n * chunk - chunk;
    if n > 1 { MoreHolds(1, n - 1, chunk); }
  }

  /** One part is enough exactly if the bytes, rounded up to a multiple of 8, fit, or nothing does. */
  lemma OnePartIff(len: nat, pmtu: int, overhead: nat)
    requires len > 0
    ensures FragmentCount(len, ChunkSize(pmtu, overhead)) == 1 <==>
            pmtu - overhead < 8 || 8 * ((len + 7) / 8) <= pmtu - overhead
  {
    var chunk := ChunkSize(pmtu, overhead);
    LargestUnit(pmtu, overhead);
    if chunk > 0 {
      SeveralParts(len, chunk);
      AtLeastOnePart(len, chunk);
      RoundedFits(len, chunk, pmtu - overhead);
    }
  }

  lemma AtLeastOnePart(len: nat, chunk: nat)
    requires chunk > 0 && len > 0
    ensures FragmentCount(len, chunk) >= 1
  {
    CountBounds(len, chunk);
  }

  lemma RoundedFits(len: nat, chunk: nat, room: int)
    requires chunk % 8 == 0 && chunk <= room < chunk + 8
    ensures 8 * ((len + 7) / 8) <= room <==> len <= chunk
  {
  }

  function Total(sizes: seq<nat>): nat {
    if sizes == [] then 0 else sizes[0] + Total(sizes[1..])
  }

  /** A way to cut `len` bytes into parts that fit, each but the last ending where an offset can point */
  ghost predicate CutsInto(sizes: seq<nat>, len: nat, room: int) {
    && sizes != [] && Total(sizes) == len
    && (forall j :: 0 <= j < |sizes| ==> 0 < sizes[j] <= room)
    && (forall j :: 0 <= j < |sizes| - 1 ==> sizes[j] % 8 == 0)
  }

  lemma UnitWithin(size: nat, chunk: nat, room: int)
    requires size % 8 == 0 && size <= room && chunk % 8 == 0 && room < chunk + 8
    ensures size <= chunk
  {
  }

  /** Parts hold at most a full fragment each, and the last one what fits. */
  lemma {:induction false} CutHolds(sizes: seq<nat>, chunk: nat, room: int)
    requires sizes != [] && chunk % 8 == 0 && chunk <= room < chunk + 8
    requires forall j :: 0 <= j < |sizes| ==> 0 < sizes[j] <= room
    requires forall j :: 0 <= j < |sizes| - 1 ==> sizes[j] % 8 == 0
    ensures Total(sizes) <= (|sizes| - 1) * chunk + room
    decreases |sizes|
  {
    if |sizes| == 1 {
      assert Total(sizes) == sizes[0] + Total([]);
    } else {
      UnitWithin(sizes[0], chunk, room);
      CutHolds(sizes[1..], chunk, room);
      assert (|sizes| - 1) * chunk == chunk + (|sizes| - 2) * chunk;
    }
  }

  /** n full parts and a last one */
  function FullParts(n: nat, chunk: nat, last: nat): (sizes: seq<nat>)
    ensures |sizes| == n + 1 && sizes[n] == last && forall j :: 0 <= j < n ==> sizes[j] == chunk
  {
    if n == 0 then [last] else [chunk] + FullParts(n - 1, chunk, last)
  }

  lemma {:induction false} FullPartsTotal(n: nat, chunk: nat, last: nat)
    ensures Total(FullParts(n, chunk, last)) == n * chunk + last
  {
    if n == 0 {
      assert Total([last]) == last + Total([]);
    } else {
      FullPartsTotal(n - 1, chunk, last);
      assert FullParts(n, chunk, last)[1..] == FullParts(n - 1, chunk, last);
      assert n * chunk == chunk + (n - 1) * chunk;
    }
  }

  /** The length of the last fragment, and when the one before it could have held it too */
  lemma LastPart(len: nat, chunk: nat, n: nat, spare: nat)
    requires chunk > 0 && n == FragmentCount(len, chunk) > 1 && spare < 8 && chunk >= 8
    ensures len <= (n - 1) * chunk + spare <==> 0 < len % chunk <= spare
  {
    var q, r := len / chunk, len % chunk;
    assert len == q * chunk + r;
    if r == 0 { assert (n - 1) * chunk == q * chunk - chunk; }
  }

  /** A cut with fewer parts leaves room for the last fragment behind a full one. */
  lemma FewerPartsNeedRoom(sizes: seq<nat>, len: nat, chunk: nat, room: int)
    requires chunk > 0 && chunk % 8 == 0 && chunk <= room < chunk + 8 && len > 0
    requires CutsInto(sizes, len, room) && |sizes| < FragmentCount(len, chunk)
    ensures len <= (FragmentCount(len, chunk) - 1) * chunk + (room - chunk)
  {
    var n := FragmentCount(len, chunk);
    CutHolds(sizes, chunk, room);
    MoreHolds(|sizes| - 1, n - 2, chunk);
    assert (n - 1) * chunk == chunk + (n - 2) * chunk;
  }

  lemma FullPartsCut(n: nat, chunk: nat, last: nat, room: int)
    requires 0 < chunk <= room && chunk % 8 == 0 && 0 < last <= room
    ensures CutsInto(FullParts(n, chunk, last), n * chunk + last, room)
  {
    FullPartsTotal(n, chunk, last);
  }

  /** With such room the last two fragments can be one. */
  lemma RoomForFewer(len: nat, chunk: nat, room: int) returns (sizes: seq<nat>)
    requires chunk > 0 && chunk % 8 == 0 && chunk <= room < chunk + 8 && len > 0
    requires var n := FragmentCount(len, chunk); n > 1 && len <= (n - 1) * chunk + (room - chunk)
    ensures CutsInto(sizes, len, room) && |sizes| == FragmentCount(len, chunk) - 1
  {
    var n := FragmentCount(len, chunk);
    CountBounds(len, chunk);
    assert (n - 1) * chunk == chunk + (n - 2) * chunk;
    FullPartsCut(n - 2, chunk, len - (n - 2) * chunk, room);
    sizes := FullParts(n - 2, chunk, len - (n - 2) * chunk);
  }

  lemma RoomLeft(pmtu: int, overhead: nat)
    requires pmtu - overhead >= 8
    ensures ChunkSize(pmtu, overhead) == 8 * ((pmtu - overhead) / 8) >= 8
    ensures (pmtu - overhead) % 8 == pmtu - overhead - ChunkSize(pmtu, overhead)
  {
    LargestUnit(pmtu, overhead);
  }

  /** The bytes could be cut into fewer than n parts that fit the room and start where an offset can point. */
  ghost predicate FewerThan(n: nat, len: nat, room: int) {
    exists sizes :: CutsInto(sizes, len, room) && |sizes| < n
  }

  /** Several parts of the largest unit of 8 leave a last one no longer than the room behind a full one. */
  predicate LastFitsBehind(len: nat, room: nat)
    requires room >= 8
  {
    len > 8 * (room / 8) && 0 < len % (8 * (room / 8)) <= room % 8
  }

  /**
   * No other cut has fewer parts, unless the last fragment has no more bytes than the room behind
   * a full one: then, and only then, the bytes could have been cut into one part less.
   */
  lemma FewerPartsIff(len: nat, pmtu: int, overhead: nat)
    requires pmtu - overhead >= 8 && len > 0
    ensures FewerThan(FragmentCount(len, ChunkSize(pmtu, overhead)), len, pmtu - overhead) <==>
            LastFitsBehind(len, pmtu - overhead)
  {
    var room, chunk := pmtu - overhead, ChunkSize(pmtu, overhead);
    var n := FragmentCount(len, chunk);
    LargestUnit(pmtu, overhead);
    RoomLeft(pmtu, overhead);
    SeveralParts(len, chunk);
    if n > 1 { LastPart(len, chunk, n, room - chunk); }
    if sizes :| CutsInto(sizes, len, room) && |sizes| < n {
      FewerPartsNeedRoom(sizes, len, chunk, room);
    }
    if n > 1 && len <= (n - 1) * chunk + (room - chunk) {
      var sizes := RoomForFewer(len, chunk, room);
    }
  }

  /**
   * n parts are as few as possible: one exactly if the bytes, rounded up to a multiple of 8, fit or
   * nothing does, and otherwise one more than needed exactly if the last one fits behind a full one.
   */
  ghost predicate AsFewAsPossible(n: nat, len: nat, room: int) {
    && (n == 1 <==> room < 8 || 8 * ((len + 7) / 8) <= room)
    && (room >= 8 ==> (FewerThan(n, len, room) <==> LastFitsBehind(len, room)))
  }

  lemma CountIsLeast(n: nat, len: nat, pmtu: int, overhead: nat)
    requires n == FragmentCount(len, ChunkSize(pmtu, overhead)) && len > 0
    ensures AsFewAsPossible(n, len, pmtu - overhead)
  {
    OnePartIff(len, pmtu, overhead);
    if pmtu - overhead >= 8 { FewerPartsIff(len, pmtu, overhead); }
  }

  lemma MoreHolds(i: nat, j: nat, chunk: nat)
    requires i <= j
    ensures i * chunk <= j * chunk
  {
  }

  function FragmentValues(chunk: nat, n: nat, i: nat, fragID: nat, payloadType: int, frameType: int): HeaderValues {
    HeaderValues(payloadType, frameType, 1, if i < n - 1 then 0 else 1, fragID, Start(chunk, i) / 8)
  }

  function FragmentDatagram(msg: seq<byte>, chunk: nat, n: nat, i: nat, fragID: nat,
                            payloadType: int, frameType: int, mac: Mac): seq<byte>
    requires chunk > 0 && |msg| > 0 && n == FragmentCount(|msg|, chunk) && i < n
  {
    HeaderBytes(FragmentValues(chunk, n, i, fragID, payloadType, frameType), mac) + Payload(msg, chunk, n, i)
  }

  function FragmentDatagrams(msg: seq<byte>, chunk: nat, fragID: nat, payloadType: int, frameType: int, mac: Mac)
    : (d: seq<seq<byte>>)
    requires chunk > 0 && |msg| > 0
    ensures |d| == FragmentCount(|msg|, chunk)
  {
    var n := FragmentCount(|msg|, chunk);
    seq(n, i requires 0 <= i < n => FragmentDatagram(msg, chunk, n, i, fragID, payloadType, frameType, mac))
  }

  function WholeDatagram(msg: seq<byte>, payloadType: int, frameType: int, mac: Mac): seq<byte> {
    HeaderBytes(HeaderValues(payloadType, frameType, 0, 0, 0, 0), mac) + msg
  }

  /**
   * All that a reader needs to know about fragment sizes: full fragments are equal, positive
   * multiples of 8, the last one is not longer and not empty, the payloads follow each other
   * without gap or overlap up to the end of the message, and a fragment datagram fits the
   * path MTU; on the control channel at least 17 bytes are left for DTLS.
   */
  lemma FragmentSizes(msg: seq<byte>, pmtu: int, overhead: nat, i: nat, fragID: nat,
                      payloadType: int, frameType: int, mac: Mac)
    requires overhead == CONTROL_OVERHEAD || overhead == DATA_OVERHEAD
    requires var n := FragmentCount(|msg|, ChunkSize(pmtu, overhead)); n > 1 && i < n && |msg| > 0
    ensures var chunk := ChunkSize(pmtu, overhead);
            var n := FragmentCount(|msg|, chunk);
            && chunk > 0 && chunk % 8 == 0
            && (i < n - 1 ==> |Payload(msg, chunk, n, i)| == chunk
                              && Start(chunk, i + 1) == Start(chunk, i) + |Payload(msg, chunk, n, i)|)
            && (i == n - 1 ==> 1 <= |Payload(msg, chunk, n, i)| <= chunk
                               && |msg| == Start(chunk, i) + |Payload(msg, chunk, n, i)|)
            && |FragmentDatagram(msg, chunk, n, i, fragID, payloadType, frameType, mac)|
               <= if overhead == CONTROL_OVERHEAD then pmtu - 17 else pmtu
  {
    var chunk := ChunkSize(pmtu, overhead);
    if i < FragmentCount(|msg|, chunk) - 1 {
      assert (i + 1) * chunk == i * chunk + chunk;
    }
  }

  // ---------------------------------------------------------------- fragment identifiers

  /** CWGetFragmentID: a counter that wraps after 65535 */
  class FragmentCounter {
    var fragID: nat

    ghost predicate Valid()
      reads this
    {
      fragID <= MAX_FRAGMENT_ID
    }

    constructor ()
      ensures Valid() && fragID == 0
    {
      fragID := 0;
    }

    method GetFragmentID() returns (r: nat)
      requires Valid()
      modifies this
      ensures Valid() && r == old(fragID) && fragID == NextID(old(fragID))
    {
      r := fragID;
      if fragID == MAX_FRAGMENT_ID {
        fragID := 0;
      } else {
        fragID := fragID + 1;
      }
    }
  }

  function NextID(id: nat): nat {
    if id == MAX_FRAGMENT_ID then 0 else id + 1
  }

  /** The identifier handed out k calls after identifier `first` */
  function IDAfter(first: nat, k: nat): nat {
    if k == 0 then first else NextID(IDAfter(first, k - 1))
  }

  lemma NextWraps(x: nat)
    ensures NextID(x % (MAX_FRAGMENT_ID + 1)) == (x + 1) % (MAX_FRAGMENT_ID + 1)
  {
  }

  lemma {:induction false} IDAfterWraps(first: nat, k: nat)
    requires first <= MAX_FRAGMENT_ID
    ensures IDAfter(first, k) == (first + k) % (MAX_FRAGMENT_ID + 1)
  {
    if k > 0 {
      IDAfterWraps(first, k - 1);
      NextWraps(first + k - 1);
    }
  }

  lemma SameRemainder(a: nat, b: nat)
    ensures a % 65536 == b % 65536 <==> (b - a) % 65536 == 0
  {
    var (p, q) := (a / 65536, b / 65536);
    var d := b % 65536 - a % 65536;
    assert b - a == 65536 * (q - p) + d;
  }

  /** Two messages share an identifier only if a multiple of 65536 identifiers apart. */
  lemma IDsRepeatOnlyAfterWrap(first: nat, j: nat, k: nat)
    requires first <= MAX_FRAGMENT_ID
    ensures IDAfter(first, j) == IDAfter(first, k) <==> (k - j) % (MAX_FRAGMENT_ID + 1) == 0
  {
    IDAfterWraps(first, j);
    IDAfterWraps(first, k);
    SameRemainder(first + j, first + k);
  }

  // ---------------------------------------------------------------- assembly

  /** The arithmetic both assemblers start with: the PMTU less the headers, in units of 8 bytes */
  method PlanFragments(len: nat, pmtu: int, overhead: nat) returns (chunk: nat, n: nat)
    ensures chunk == ChunkSize(pmtu, overhead) && n == FragmentCount(len, chunk)
  {
    var room := pmtu - overhead;
    chunk, n := 0, 1;
    if room > 0 {
      chunk := (room / 8) * 8;
      if chunk != 0 {
        n := len / chunk;
        if len % chunk != 0 {
          n := n + 1;
        }
      }
    }
  }

  /** One datagram: a transport header followed by a payload, in a buffer of exactly that size */
  method AssembleDatagram(v: HeaderValues, mac: Mac, payload: seq<byte>) returns (d: seq<byte>)
    ensures d == HeaderBytes(v, mac) + payload
  {
    var hdr := AssembleTransportHeader(v, mac);
    var m := new ProtocolMessage(hdr.offset + |payload|);
    m.StoreMessage(hdr);
    m.StoreRawBytes(payload);
    d := m.msg[..];
    assert d == m.Written();
  }

  lemma PrefixSlice(s: seq<byte>, n: nat, i: nat, j: nat)
    requires i <= j <= n <= |s|
    ensures s[i..j] == s[..n][i..j]
  {}

  /** One turn of the fragment loop: fragment i starts at the message offset and moves it on. */
  method AssembleFragment(msg: ProtocolMessage, totalSize: nat, chunk: nat, n: nat, i: nat, fragID: nat,
                          payloadType: int, frameType: int, mac: Mac)
    returns (d: seq<byte>)
    requires 0 < totalSize <= msg.msg.Length
    requires chunk > 0 && n == FragmentCount(totalSize, chunk) && i < n && msg.offset == Start(chunk, i)
    modifies msg`offset
    ensures msg.offset == if i < n - 1 then Start(chunk, i + 1) else totalSize
    ensures d == FragmentDatagram(msg.msg[..totalSize], chunk, n, i, fragID, payloadType, frameType, mac)
  {
    ghost var whole := msg.msg[..totalSize];
    var last, fragSize := 0, chunk;
    if !(i < n - 1) {
      fragSize := totalSize - Start(chunk, n - 1);
      last := 1;
    }
    PayloadEnd(whole, chunk, n, i);
    assert fragSize == |Payload(whole, chunk, n, i)|;
    PrefixSlice(msg.msg[..], totalSize, msg.offset, msg.offset + fragSize);
    var payload := msg.msg[msg.offset..msg.offset + fragSize];
    d := AssembleDatagram(HeaderValues(payloadType, frameType, 1, last, fragID, msg.offset / 8), mac, payload);
    msg.offset := msg.offset + fragSize;
  }

  lemma OneMore<T>(s: seq<T>, i: nat)
    requires i < |s|
    ensures s[..i + 1] == s[..i] + [s[i]]
  {}

  /** The fragment loop: msg.offset runs through the message, one fragment per turn. */
  method AssembleFragments(msg: ProtocolMessage, chunk: nat, n: nat, fragID: nat,
                           payloadType: int, frameType: int, mac: Mac)
    returns (frags: seq<seq<byte>>)
    requires 0 < msg.offset <= msg.msg.Length
    requires chunk > 0 && n == FragmentCount(msg.offset, chunk)
    modifies msg`offset
    ensures msg.offset == old(msg.offset)
    ensures frags == FragmentDatagrams(msg.Written(), chunk, fragID, payloadType, frameType, mac)
  {
    var totalSize := msg.offset;
    ghost var expected := FragmentDatagrams(msg.Written(), chunk, fragID, payloadType, frameType, mac);
    CountBounds(totalSize, chunk);
    frags := [];
    msg.offset := 0;
    for i := 0 to n
      invariant msg.offset == if i < n then Start(chunk, i) else totalSize
      invariant frags == expected[..i]
    {
      var d := AssembleFragment(msg, totalSize, chunk, n, i, fragID, payloadType, frameType, mac);
      OneMore(expected, i);
      frags := frags + [d];
    }
  }

  /** The datagrams of a data frame: none for an empty frame that would be fragmented */
  function DataDatagrams(frame: seq<byte>, pmtu: int, fragID: nat, payloadType: int, frameType: int, mac: Mac)
    : seq<seq<byte>>
  {
    var chunk := ChunkSize(pmtu, DATA_OVERHEAD);
    var n := FragmentCount(|frame|, chunk);
    if n == 1 then [WholeDatagram(frame, payloadType, frameType, mac)]
    else if |frame| == 0 then []
    else FragmentDatagrams(frame, chunk, fragID, payloadType, frameType, mac)
  }

  /**
   * A frame goes out in as few datagrams as possible behind the 16 bytes of the header, whole if
   * it is one; only an empty frame that would be cut goes out in none.
   */
  lemma DataDatagramCount(frame: seq<byte>, pmtu: int, fragID: nat, payloadType: int, frameType: int, mac: Mac)
    ensures var datagrams := DataDatagrams(frame, pmtu, fragID, payloadType, frameType, mac);
            && (|frame| > 0 ==> AsFewAsPossible(|datagrams|, |frame|, pmtu - 16))
            && (|frame| == 0 ==> |datagrams| == if pmtu - 16 < 8 then 1 else 0)
            && (|datagrams| == 1 ==> datagrams == [WholeDatagram(frame, payloadType, frameType, mac)])
  {
    LargestUnit(pmtu, DATA_OVERHEAD);
    if |frame| > 0 {
      CountIsLeast(|DataDatagrams(frame, pmtu, fragID, payloadType, frameType, mac)|, |frame|, pmtu, DATA_OVERHEAD);
    }
  }

  /** CWAssembleDataMessage for a frame that is not a keep-alive and has no wireless binding values */
  method AssembleDataMessage(pmtu: int, frame: ProtocolMessage, kind: Option<nat>, payloadType: int,
                             mac: Mac, ids: FragmentCounter)
    returns (datagrams: seq<seq<byte>>)
    requires frame.offset <= frame.msg.Length && ids.Valid()
    modifies frame`offset, ids
    ensures ids.Valid() && frame.offset == old(frame.offset)
    ensures datagrams == DataDatagrams(frame.Written(), pmtu, old(ids.fragID), payloadType,
                                       if kind == Some(IEEE_802_11_FRAME) then 1 else 0, mac)
    ensures ids.fragID == if FragmentCount(frame.offset, ChunkSize(pmtu, DATA_OVERHEAD)) == 1
                          then old(ids.fragID) else NextID(old(ids.fragID))
  {
    var chunk, n := PlanFragments(frame.offset, pmtu, MAX_CAPWAP_HEADER_SIZE_BINDING);
    var frameType := 0;
    if kind == Some(IEEE_802_11_FRAME) {
      frameType := 1;
    }
    if n == 1 {
      var d := AssembleDatagram(HeaderValues(payloadType, frameType, 0, 0, 0, 0), mac, frame.msg[..frame.offset]);
      datagrams := [d];
    } else {
      var fragID := ids.GetFragmentID();
      if frame.offset == 0 {
        datagrams := [];
      } else {
        datagrams := AssembleFragments(frame, chunk, n, fragID, payloadType, frameType, mac);
      }
    }
  }
}
