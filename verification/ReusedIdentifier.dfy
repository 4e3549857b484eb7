/**
 * A message whose identifier is still that of the pending list.  Identifiers come back after
 * 65536 messages, and the receiver tells fragments apart by identifier and offset alone, so
 * fragments that an older message left behind take the places of those of the new one.
 */
module ReusedIdentifier {
  import opened Wire
  import opened Wrappers
  import opened Reassembly
  import opened ReassemblyLaws
  import opened Arrivals
  import opened Delivery

  // ---------------------------------------------------------------- fragments in the places of others

  /** g has the identifier and the place of f and was cut in the same way; only a last fragment may differ in length. */
  ghost predicate InPlaceOf(g: Fragment, f: Fragment) {
    g.id == f.id && g.offset == f.offset && g.last == f.last && g.data != [] && (!f.last ==> |g.data| == |f.data|)
  }

  ghost predicate AllInPlace(others: seq<Fragment>, parts: seq<Fragment>) {
    |others| == |parts| && forall i :: 0 <= i < |parts| ==> InPlaceOf(others[i], parts[i])
  }

  lemma {:induction false} ContiguousInPlace(chain: seq<Fragment>, others: seq<Fragment>, off: nat)
    requires Contiguous(chain, off) && AllInPlace(others, chain)
    ensures Contiguous(others, off)
    decreases |chain|
  {
    if |chain| > 1 { ContiguousInPlace(chain[1..], others[1..], off + |chain[0].data| / 8); }
  }

  lemma {:induction false} PartsInPlace(parts: seq<Fragment>, others: seq<Fragment>)
    requires Parts(parts) && AllInPlace(others, parts)
    ensures Parts(others)
  {
    ContiguousInPlace(parts, others, 0);
    assert InPlaceOf(others[0], parts[0]);
  }

  lemma SameHalves(a: seq<byte>, b: seq<byte>, c: seq<byte>, d: seq<byte>)
    requires |a| == |c|
    ensures a + b == c + d <==> a == c && b == d
  {
    assert (a + b)[..|a|] == a && (a + b)[|a|..] == b;
    assert (c + d)[..|c|] == c && (c + d)[|c|..] == d;
  }

  /** Two messages cut in the same way are equal exactly if all their parts are. */
  lemma {:induction false} EqualIfPartsAre(parts: seq<Fragment>, others: seq<Fragment>, off: nat)
    requires Contiguous(parts, off) && AllInPlace(others, parts)
    ensures Flatten(others) == Flatten(parts) <==> others == parts
    decreases |parts|
  {
    var f, g := parts[0], others[0];
    assert parts == [f] + parts[1..] && others == [g] + others[1..];
    if |parts| == 1 {
      assert Flatten(parts) == f.data + [] == f.data;
      assert Flatten(others) == g.data + [] == g.data;
    } else {
      EqualIfPartsAre(parts[1..], others[1..], off + |f.data| / 8);
      SameHalves(g.data, Flatten(others[1..]), f.data, Flatten(parts[1..]));
    }
  }

  // ---------------------------------------------------------------- the mixture

  /** The pending fragments stand where the parts with these indices belong. */
  ghost predicate StandsIn(parts: seq<Fragment>, indices: seq<nat>, held: seq<Fragment>) {
    && |held| == |indices| && Arrived(parts, indices)
    && forall j :: 0 <= j < |held| ==> InPlaceOf(held[j], parts[indices[j]])
  }

  /** The parts, but the pending fragments in their places */
  ghost function Mixed(parts: seq<Fragment>, indices: seq<nat>, held: seq<Fragment>): (mixed: seq<Fragment>)
    requires |held| == |indices| && forall j :: 0 <= j < |indices| ==> indices[j] < |parts|
    ensures |mixed| == |parts|
  {
    if indices == [] then parts else Mixed(parts, indices[1..], held[1..])[indices[0] := held[0]]
  }

  /** Part i of the mixture is the new one unless a pending one stands in for it. */
  lemma {:induction false} MixedAt(parts: seq<Fragment>, indices: seq<nat>, held: seq<Fragment>)
    requires StandsIn(parts, indices, held)
    ensures forall i: nat :: i < |parts| && i !in indices ==> Mixed(parts, indices, held)[i] == parts[i]
    ensures forall j :: 0 <= j < |indices| ==> Mixed(parts, indices, held)[indices[j]] == held[j]
    decreases |indices|
  {
    if indices != [] {
      MixedAt(parts, indices[1..], held[1..]);
      var rest := Mixed(parts, indices[1..], held[1..]);
      forall j | 0 <= j < |indices| ensures Mixed(parts, indices, held)[indices[j]] == held[j] {
        if j > 0 { assert rest[indices[1..][j - 1]] == held[1..][j - 1]; }
      }
    }
  }

  lemma {:induction false} MixedInPlace(parts: seq<Fragment>, indices: seq<nat>, held: seq<Fragment>)
    requires Parts(parts) && StandsIn(parts, indices, held)
    ensures AllInPlace(Mixed(parts, indices, held), parts)
  {
    MixedAt(parts, indices, held);
    forall i | 0 <= i < |parts| ensures InPlaceOf(Mixed(parts, indices, held)[i], parts[i]) {
      if i in indices {
        var j :| 0 <= j < |indices| && indices[j] == i;
        assert Mixed(parts, indices, held)[indices[j]] == held[j];
      }
    }
  }

  lemma {:induction false} HeldIsPicked(parts: seq<Fragment>, indices: seq<nat>, held: seq<Fragment>)
    requires StandsIn(parts, indices, held)
    ensures Pick(Mixed(parts, indices, held), indices) == held
  {
    MixedAt(parts, indices, held);
  }

  /** The mixture is the new message exactly if what was pending are fragments of it. */
  lemma {:induction false} MixedIsNewIff(parts: seq<Fragment>, indices: seq<nat>, held: seq<Fragment>)
    requires Parts(parts) && StandsIn(parts, indices, held)
    ensures Flatten(Mixed(parts, indices, held)) == Flatten(parts) <==> held == Pick(parts, indices)
  {
    var mixed := Mixed(parts, indices, held);
    MixedInPlace(parts, indices, held);
    MixedAt(parts, indices, held);
    HeldIsPicked(parts, indices, held);
    EqualIfPartsAre(parts, mixed, 0);
    if held == Pick(parts, indices) {
      forall i: nat | i < |parts| ensures mixed[i] == parts[i] {
        if i in indices {
          var j :| 0 <= j < |indices| && indices[j] == i;
          assert mixed[indices[j]] == held[j];
        }
      }
      assert mixed == parts;
    }
  }

  // ---------------------------------------------------------------- the run

  /** New fragments for places that are taken come in like copies of those that are there. */
  lemma {:induction false} NewComeForMixed(
    parts: seq<Fragment>, indices: seq<nat>, held: seq<Fragment>, order: seq<nat>, arrivals: seq<Arrival>)
    requires Parts(parts) && StandsIn(parts, indices, held) && |arrivals| == |order|
    requires forall j :: 0 <= j < |order| ==> order[j] < |parts| && arrivals[j].fragment == parts[order[j]]
    ensures InOrder(Mixed(parts, indices, held), indices, order, arrivals)
  {
    var mixed := Mixed(parts, indices, held);
    MixedAt(parts, indices, held);
    MixedInPlace(parts, indices, held);
    forall j | 0 <= j < |order| ensures ComesFor(mixed, indices, order[j], arrivals[j].fragment) {
      assert InPlaceOf(mixed[order[j]], parts[order[j]]);
    }
  }

  /** Each fragment arrives that is not replaced by a pending one, the last of them at the very end. */
  ghost predicate CompletesPending(n: nat, indices: seq<nat>, order: seq<nat>) {
    order != [] && Missing(n, indices + order) == {} && Missing(n, indices + order[..|order| - 1]) != {}
  }

  /**
   * Whatever the order and the repetitions, what comes out is the new message with the pending
   * fragments in the places they have taken, each with its bytes; so it is the message that was
   * sent exactly if all that was pending are fragments of it.
   */
  lemma {:induction false} PendingBytesMixIn(
    s: Split, indices: seq<nat>, held: seq<Fragment>, order: seq<nat>, packets: seq<Packet>)
    requires s.Valid() && s.OffsetsFit() && StandsIn(s.ReceivedFrom(0), indices, held)
    requires CarryInOrder(s, order, packets) && CompletesPending(s.Count(), indices, order)
    ensures var bytes := Flatten(Mixed(s.ReceivedFrom(0), indices, held));
            && Run(held, packets) == RunResult(
                 [], Waiting(|order| - 1) + [Complete(bytes, s.Kind(packets[|packets| - 1].dataFlag))])
            && (forall f <- held :: Holds(bytes, 8 * f.offset, f.data))
            && (bytes == s.msg <==> held == Pick(s.ReceivedFrom(0), indices))
  {
    var parts := s.ReceivedFrom(0);
    ReceivedAreParts(s);
    MixedIsNewIff(parts, indices, held);
    MixedRuns(s, indices, held, order, packets);
    PendingStands(parts, indices, held);
  }

  lemma {:induction false} PendingStands(parts: seq<Fragment>, indices: seq<nat>, held: seq<Fragment>)
    requires Parts(parts) && StandsIn(parts, indices, held)
    ensures forall f <- held :: Holds(Flatten(Mixed(parts, indices, held)), 8 * f.offset, f.data)
  {
    var mixed := Mixed(parts, indices, held);
    MixedInPlace(parts, indices, held);
    PartsInPlace(parts, mixed);
    MixedAt(parts, indices, held);
    forall f | f in held ensures Holds(Flatten(mixed), 8 * f.offset, f.data) {
      var j :| 0 <= j < |held| && held[j] == f;
      assert mixed[indices[j]] == f;
      ChainBytes(mixed, 0, f);
    }
  }

  lemma {:induction false} MixedRuns(
    s: Split, indices: seq<nat>, held: seq<Fragment>, order: seq<nat>, packets: seq<Packet>)
    requires s.Valid() && s.OffsetsFit() && Parts(s.ReceivedFrom(0)) && StandsIn(s.ReceivedFrom(0), indices, held)
    requires CarryInOrder(s, order, packets) && CompletesPending(s.Count(), indices, order)
    ensures Run(held, packets) == RunResult(
              [], Waiting(|order| - 1) + [Complete(Flatten(Mixed(s.ReceivedFrom(0), indices, held)),
                                                   s.Kind(packets[|packets| - 1].dataFlag))])
  {
    var parts, arrivals := s.ReceivedFrom(0), ArrivalsOf(s, order, packets);
    var mixed := Mixed(parts, indices, held);
    forall j | 0 <= j < |packets| ensures Brings(packets[j], arrivals[j]) {
      DatagramBrings(s, order[j], packets[j]);
    }
    RunBrings(held, packets, arrivals);
    MixedInPlace(parts, indices, held);
    PartsInPlace(parts, mixed);
    HeldIsPicked(parts, indices, held);
    NewComeForMixed(parts, indices, held, order, arrivals);
    DeliveryContinues(mixed, indices, order, arrivals);
  }

  lemma {:induction false} TwoParts(f: Fragment, g: Fragment)
    requires f.id == g.id && f.offset == 0 && g.offset == 1 && !f.last && g.last && |f.data| == 8 && g.data != []
    ensures Parts([f, g]) && Flatten([f, g]) == f.data + g.data
  {
    assert Contiguous([f, g][1..], 1);
    assert Flatten([g]) == g.data + [] == g.data;
    assert [f, g][1..] == [g];
  }

  lemma {:induction false} FirstOfTwoThere()
    ensures 1 in Missing(2, [0]) && Missing(2, AlsoArrived([0], 1)) == {}
  {
  }

  /** Of two fragments the first one is pending; x has its identifier and its place. */
  lemma {:induction false} PendingFirst(f: Fragment, g: Fragment, x: Fragment, msgType: Option<nat>, dataFlag: bool)
    requires Parts([f, g]) && Same(x, f)
    ensures Accept([f], x, false, msgType, dataFlag) == StepResult([f], NeedMore, dataFlag)
    ensures Accept([f], g, false, msgType, dataFlag) == StepResult([], Complete(Flatten([f, g]), msgType), dataFlag)
  {
    FirstOfTwoThere();
    assert Pick([f, g], [0]) == [f];
    AcceptPart([f, g], [0], 0, x, msgType, dataFlag);
    AcceptPart([f, g], [0], 1, g, msgType, dataFlag);
  }

  /**
   * The smallest case: of two fragments, the first of an older message is pending.  That of the
   * new message is taken for a copy of it, and its second one completes the old bytes.
   */
  lemma {:induction false} OldFirstHalfStays(
    id: nat, earlier: seq<byte>, first: seq<byte>, second: seq<byte>, msgType: Option<nat>, dataFlag: bool)
    requires |earlier| == |first| == 8 && second != []
    ensures var pending := [Fragment(id, 0, false, earlier)];
            && Accept(pending, Fragment(id, 0, false, first), false, msgType, dataFlag) ==
                 StepResult(pending, NeedMore, dataFlag)
            && Accept(pending, Fragment(id, 1, true, second), false, msgType, dataFlag) ==
                 StepResult([], Complete(earlier + second, msgType), dataFlag)
            && (earlier + second == first + second <==> earlier == first)
  {
    var f, g := Fragment(id, 0, false, earlier), Fragment(id, 1, true, second);
    TwoParts(f, g);
    PendingFirst(f, g, Fragment(id, 0, false, first), msgType, dataFlag);
    SameHalves(earlier, second, first, second);
  }
}
