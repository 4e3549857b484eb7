/**
 * The scan over the information elements of an IEEE 802.11 frame: ieee802_11_parse_elems.
 */
module ElementScan {
  import opened Wire
  import opened Wrappers

  const WLAN_EID_SSID := 0
  const WLAN_EID_SUPP_RATES := 1
  const WLAN_EID_DS_PARAMS := 3

  datatype ParseRes = ParseOK | ParseUnknown | ParseFailed

  /** A pointer into the frame and a length */
  datatype Span = Span(start: nat, len: nat)

  /** What the scan remembers; `None` stands for a NULL pointer. */
  datatype Elems = Elems(ssid: Option<Span>, suppRates: Option<Span>, dsParams: Option<Span>)

  // ---------------------------------------------------------------- what a frame body is

  /** An information element: an identifier, and a body whose length fits one byte */
  type Body = s: seq<byte> | |s| < 256

  datatype IE = IE(id: byte, body: Body)

  function IESize(ie: IE): nat {
    2 + |ie.body|
  }

  function IEBytes(ie: IE): (s: seq<byte>)
    ensures |s| == IESize(ie)
  {
    [ie.id, |ie.body|] + ie.body
  }

  function IEsBytes(ies: seq<IE>): seq<byte> {
    if ies == [] then [] else IEBytes(ies[0]) + IEsBytes(ies[1..])
  }

  predicate Known(ie: IE) {
    ie.id == WLAN_EID_SSID || ie.id == WLAN_EID_SUPP_RATES || ie.id == WLAN_EID_DS_PARAMS
  }

  predicate AllKnown(ies: seq<IE>) {
    ies == [] || (AllKnown(ies[..|ies| - 1]) && Known(ies[|ies| - 1]))
  }

  function Remember(e: Elems, ie: IE, span: Span): Elems {
    if ie.id == WLAN_EID_SSID then e.(ssid := Some(span))
    else if ie.id == WLAN_EID_SUPP_RATES then e.(suppRates := Some(span))
    else if ie.id == WLAN_EID_DS_PARAMS then e.(dsParams := Some(span))
    else e
  }

  /** What is remembered of a list of elements laid one behind the other */
  function Remembered(ies: seq<IE>): Elems {
    if ies == [] then Elems(None, None, None)
    else
      var front, last := ies[..|ies| - 1], ies[|ies| - 1];
      Remember(Remembered(front), last, Span(|IEsBytes(front)| + 2, |last.body|))
  }

  function Chosen(e: Elems, id: byte): Option<Span> {
    if id == WLAN_EID_SSID then e.ssid else if id == WLAN_EID_SUPP_RATES then e.suppRates else e.dsParams
  }

  // ---------------------------------------------------------------- lists of elements and their bytes

  lemma {:induction false} BytesAppend(ies: seq<IE>, ie: IE)
    ensures IEsBytes(ies + [ie]) == IEsBytes(ies) + IEBytes(ie)
  {
    if ies == [] {
      assert [ie][1..] == [];
      assert IEsBytes([ie]) == IEBytes(ie) + [];
    } else {
      assert (ies + [ie])[1..] == ies[1..] + [ie];
      BytesAppend(ies[1..], ie);
    }
  }

  /** The first element can be told from the bytes. */
  lemma FirstIsRead(ies: seq<IE>, rest: seq<byte>)
    requires ies != [] && IEsBytes(ies) == rest
    ensures |rest| >= 2 && 2 + rest[1] <= |rest|
    ensures ies[0] == IE(rest[0], rest[2..2 + rest[1]])
    ensures IEsBytes(ies[1..]) == rest[2 + rest[1]..]
  {
    assert rest == IEBytes(ies[0]) + IEsBytes(ies[1..]);
    assert rest[1] == |ies[0].body|;
    assert IEBytes(ies[0])[2..] == ies[0].body;
  }

  /** There is at most one way to take bytes apart: a list that matches up to a point continues from there. */
  lemma {:induction false} Continues(done: seq<IE>, all: seq<IE>, data: seq<byte>)
    requires IEsBytes(done) <= data && IEsBytes(all) == data
    ensures done <= all && IEsBytes(all[|done|..]) == data[|IEsBytes(done)|..]
    decreases |done|
  {
    if done != [] {
      var size := IESize(done[0]);
      assert data[..|IEsBytes(done)|] == IEBytes(done[0]) + IEsBytes(done[1..]);
      assert data[0] == done[0].id && data[1] == |done[0].body|;
      FirstIsRead(all, data);
      assert data[2..size] == done[0].body;
      assert all[0] == done[0];
      assert IEsBytes(done[1..]) <= data[size..];
      Continues(done[1..], all[1..], data[size..]);
      assert all[1..][|done| - 1..] == all[|done|..];
    }
  }

  /** The bytes of the list that was met fill the buffer: no other list does. */
  lemma OnlyOne(ies: seq<IE>, all: seq<IE>)
    requires IEsBytes(ies) == IEsBytes(all)
    ensures ies == all
  {
    Continues(ies, all, IEsBytes(all));
    if all[|ies|..] != [] {
      FirstIsRead(all[|ies|..], []);
    }
  }

  // ---------------------------------------------------------------- the scan

  /**
   * The scan fails exactly if the buffer is not a row of elements.  If it is one, the scan has
   * remembered, of each known identifier, the body of the last element with it, and tells
   * whether there were unknown identifiers.
   */
  method ParseElems(data: seq<byte>) returns (res: ParseRes, elems: Elems)
    ensures res != ParseFailed <==> exists ies :: IEsBytes(ies) == data
    ensures forall ies :: IEsBytes(ies) == data ==>
              elems == Remembered(ies) && (res == ParseOK <==> AllKnown(ies))
  {
    var left: nat, pos: nat, unknown: nat := |data|, 0, 0;
    elems := Elems(None, None, None);
    ghost var done: seq<IE> := [];
    while left >= 2
      invariant pos + left == |data|
      invariant data[..pos] == IEsBytes(done)
      invariant elems == Remembered(done) && (unknown == 0 <==> AllKnown(done))
    {
      var id, elen := data[pos], data[pos + 1];
      pos := pos + 2;
      left := left - 2;
      if elen > left {
        NotARow(done, data);
        return ParseFailed, elems;
      }
      ghost var ie := IE(id, data[pos..pos + elen]);
      Extend(done, ie, data, pos - 2);
      if id == WLAN_EID_SSID {
        elems := elems.(ssid := Some(Span(pos, elen)));
      } else if id == WLAN_EID_SUPP_RATES {
        elems := elems.(suppRates := Some(Span(pos, elen)));
      } else if id == WLAN_EID_DS_PARAMS {
        elems := elems.(dsParams := Some(Span(pos, elen)));
      } else {
        unknown := unknown + 1;
      }
      left := left - elen;
      pos := pos + elen;
      done := done + [ie];
    }
    if left > 0 {
      NotARow(done, data);
      return ParseFailed, elems;
    }
    assert data[..pos] == data;
    forall ies | IEsBytes(ies) == data ensures ies == done {
      OnlyOne(done, ies);
    }
    res := if unknown > 0 then ParseUnknown else ParseOK;
  }

  /** Where the next element does not fit, or one byte is left, no list of elements fills the buffer. */
  lemma NotARow(done: seq<IE>, data: seq<byte>)
    requires var n := |IEsBytes(done)|;
             && n < |data| && data[..n] == IEsBytes(done)
             && (n + 1 == |data| || n + 2 + data[n + 1] > |data|)
    ensures forall ies :: IEsBytes(ies) != data
  {
    var n := |IEsBytes(done)|;
    forall ies ensures IEsBytes(ies) != data {
      if IEsBytes(ies) == data {
        Continues(done, ies, data);
        FirstIsRead(ies[|done|..], data[n..]);
      }
    }
  }

  lemma Extend(done: seq<IE>, ie: IE, data: seq<byte>, at: nat)
    requires at + IESize(ie) <= |data| && data[..at] == IEsBytes(done)
    requires data[at] == ie.id && data[at + 1] == |ie.body| && data[at + 2..at + IESize(ie)] == ie.body
    ensures data[..at + IESize(ie)] == IEsBytes(done + [ie])
    ensures Remembered(done + [ie]) == Remember(Remembered(done), ie, Span(at + 2, |ie.body|))
    ensures AllKnown(done + [ie]) <==> AllKnown(done) && Known(ie)
  {
    BytesAppend(done, ie);
    assert data[at..at + IESize(ie)] == IEBytes(ie);
    assert data[..at + IESize(ie)] == data[..at] + data[at..at + IESize(ie)];
    assert (done + [ie])[..|done|] == done;
  }

  // ---------------------------------------------------------------- what is remembered

  lemma {:induction false} BytesOfParts(a: seq<IE>, b: seq<IE>)
    ensures IEsBytes(a + b) == IEsBytes(a) + IEsBytes(b)
  {
    if a == [] {
      assert a + b == b;
    } else {
      assert (a + b)[1..] == a[1..] + b;
      BytesOfParts(a[1..], b);
    }
  }

  lemma OthersAreKept(e: Elems, ie: IE, span: Span, id: byte)
    requires ie.id != id && (id == WLAN_EID_SSID || id == WLAN_EID_SUPP_RATES || id == WLAN_EID_DS_PARAMS)
    ensures Chosen(Remember(e, ie, span), id) == Chosen(e, id)
  {
  }

  lemma {:induction false} RemembersThis(ies: seq<IE>, k: nat)
    requires k < |ies| && Known(ies[k])
    requires forall j :: k < j < |ies| ==> ies[j].id != ies[k].id
    ensures Chosen(Remembered(ies), ies[k].id) == Some(Span(|IEsBytes(ies[..k])| + 2, |ies[k].body|))
    decreases |ies|
  {
    var n := |ies| - 1;
    if k < n {
      OthersAreKept(Remembered(ies[..n]), ies[n], Span(|IEsBytes(ies[..n])| + 2, |ies[n].body|), ies[k].id);
      assert ies[..n][k] == ies[k] && ies[..n][..k] == ies[..k];
      RemembersThis(ies[..n], k);
    }
  }

  /** Of a known identifier the remembered span is the body of its last element, and lies inside the buffer. */
  lemma RemembersLast(ies: seq<IE>, k: nat)
    requires k < |ies| && Known(ies[k])
    requires forall j :: k < j < |ies| ==> ies[j].id != ies[k].id
    ensures var span := Span(|IEsBytes(ies[..k])| + 2, |ies[k].body|);
            && Chosen(Remembered(ies), ies[k].id) == Some(span)
            && span.start + span.len <= |IEsBytes(ies)|
            && Holds(IEsBytes(ies), span.start, ies[k].body)
  {
    RemembersThis(ies, k);
    BodyHeld(ies, k);
  }

  /** The last SSID, supported rates and DS parameter elements go to the three pointers in this order. */
  lemma RemembersFields(ies: seq<IE>, k: nat)
    requires k < |ies| && forall j :: k < j < |ies| ==> ies[j].id != ies[k].id
    ensures var e, span := Remembered(ies), Some(Span(|IEsBytes(ies[..k])| + 2, |ies[k].body|));
            && (ies[k].id == 0 ==> e.ssid == span)
            && (ies[k].id == 1 ==> e.suppRates == span)
            && (ies[k].id == 3 ==> e.dsParams == span)
  {
    if Known(ies[k]) { RemembersThis(ies, k); }
  }

  /** The scan finds no unknown element exactly if every identifier is 0, 1 or 3. */
  lemma {:induction false} AllKnownIff(ies: seq<IE>)
    ensures AllKnown(ies) <==> forall i :: 0 <= i < |ies| ==> ies[i].id == 0 || ies[i].id == 1 || ies[i].id == 3
    decreases |ies|
  {
    if ies != [] {
      var front := ies[..|ies| - 1];
      AllKnownIff(front);
      assert forall i :: 0 <= i < |front| ==> front[i] == ies[i];
    }
  }

  /** Nothing is remembered of an identifier that does not occur. */
  lemma {:induction false} RemembersNone(ies: seq<IE>, id: byte)
    requires id == WLAN_EID_SSID || id == WLAN_EID_SUPP_RATES || id == WLAN_EID_DS_PARAMS
    requires forall j :: 0 <= j < |ies| ==> ies[j].id != id
    ensures Chosen(Remembered(ies), id) == None
    decreases |ies|
  {
    if ies != [] {
      RemembersNone(ies[..|ies| - 1], id);
    }
  }

  lemma BodyHeld(ies: seq<IE>, k: nat)
    requires k < |ies|
    ensures Holds(IEsBytes(ies), |IEsBytes(ies[..k])| + 2, ies[k].body)
  {
    assert ies == ies[..k] + ies[k..] && ies[k..][1..] == ies[k + 1..];
    BytesOfParts(ies[..k], ies[k..]);
    var pre, head, post := IEsBytes(ies[..k]), [ies[k].id, |ies[k].body| as byte], IEsBytes(ies[k + 1..]);
    assert IEsBytes(ies) == pre + head + ies[k].body + post;
    HoldsMiddle(pre + head, ies[k].body, post);
  }
}
