/**
 * What reassembly guarantees: what the pending list always looks like, that leftovers of one
 * message never reach another, and that a complete list is rebuilt exactly when its fragments
 * tile the message.
 */
module ReassemblyLaws {
  import opened Wire
  import opened Wrappers
  import opened TransportHeader
  import opened Reassembly

  // ---------------------------------------------------------------- whole runs

  /** The results of consecutive calls on one list; a call that is fatal ends the run. */
  datatype RunResult = RunResult(list: seq<Fragment>, outcomes: seq<Outcome>)

  function Run(list: seq<Fragment>, packets: seq<Packet>): RunResult
    decreases |packets|
  {
    if packets == [] then RunResult(list, [])
    else
      var s := Step(list, packets[0]);
      if Fatal(s.outcome) then RunResult(s.list, [s.outcome])
      else
        var rest := Run(s.list, packets[1..]);
        RunResult(rest.list, [s.outcome] + rest.outcomes)
  }

  /** One message, every place at most once */
  ghost predicate OneMessage(list: seq<Fragment>) {
    forall i, j :: 0 <= i < j < |list| ==> list[i].id == list[j].id && list[i].offset != list[j].offset
  }

  /** The fragment a packet carries, if it carries one */
  function FragmentOf(p: Packet): Option<nat> {
    match ParseHeader(p.buf, 0, p.dataFlag, None)
    case BadHeader(_) => None
    case Header(v, _, _, _) => if v.isFragment != 0 then Some(v.fragmentID) else None
  }

  lemma AddKeepsOneMessage(list: seq<Fragment>, f: Fragment)
    requires OneMessage(list) && (list == [] || list[0].id == f.id) && !Known(list, f)
    ensures OneMessage([f] + list)
  {
    var all := [f] + list;
    forall i, j | 0 <= i < j < |all| ensures all[i].id == all[j].id && all[i].offset != all[j].offset {
      assert all[j] == list[j - 1] && list[j - 1] in list;
      if i > 0 { assert all[i] == list[i - 1]; }
    }
  }

  lemma AcceptKeepsOneMessage(
    list: seq<Fragment>, f: Fragment, short: bool, msgType: Option<nat>, dataFlag: bool)
    requires OneMessage(list)
    ensures var r := Accept(list, f, short, msgType, dataFlag);
            && OneMessage(r.list)
            && (r.outcome.Complete? ==> r.list == [])
            && (r.list != [] ==> r.list[0].id == f.id)
  {
    if !Known(Pending(list, f.id), f) { AddKeepsOneMessage(Pending(list, f.id), f); }
  }

  lemma StepKeepsOneMessage(list: seq<Fragment>, p: Packet)
    requires OneMessage(list)
    ensures OneMessage(Step(list, p).list)
    ensures FragmentOf(p).None? ==> Step(list, p).list == list
    ensures Step(list, p).outcome.Complete? && FragmentOf(p).Some? ==> Step(list, p).list == []
    ensures FragmentOf(p).Some? && Step(list, p).list != [] ==> Step(list, p).list[0].id == FragmentOf(p).value
  {
    match ParseHeader(p.buf, 0, p.dataFlag, None) {
      case BadHeader(_) =>
      case Header(v, flag, off, msgType) =>
        var f := Fragment(v.fragmentID, v.fragmentOffset, v.last == 1, Body(p, off));
        AcceptKeepsOneMessage(list, f, p.readBytes < off, msgType, flag);
    }
  }

  /** The flag that a call returns is the one its header leaves. */
  lemma FlagIsHeaders(list: seq<Fragment>, p: Packet)
    ensures Step(list, p).dataFlag == ParseHeader(p.buf, 0, p.dataFlag, None).dataFlag
  {
  }

  /** A packet is refused as malformed, and nothing else happens, if its header is. */
  lemma BadHeaderRefused(list: seq<Fragment>, p: Packet)
    requires ParseHeader(p.buf, 0, p.dataFlag, None).BadHeader?
    ensures Step(list, p).outcome.InvalidFormat? && Step(list, p).list == list
  {
  }

  /**
   * A packet that ends before its header does: an unfragmented message and a new fragment fail for
   * want of memory, and the fragment has discarded the list of another message by then; a fragment
   * whose identifier and offset are in the list asks for more like any other copy.
   */
  lemma {:induction false} ShortPacket(list: seq<Fragment>, p: Packet)
    requires ParseHeader(p.buf, 0, p.dataFlag, None).Header?
    requires p.readBytes < ParseHeader(p.buf, 0, p.dataFlag, None).offset
    ensures var v, r := ParseHeader(p.buf, 0, p.dataFlag, None).values, Step(list, p);
            && (v.isFragment == 0 ==> r.outcome.OutOfMemory? && r.list == list)
            && (v.isFragment != 0 && (list == [] || list[0].id != v.fragmentID) ==>
                  r.outcome.OutOfMemory? && r.list == [])
            && (v.isFragment != 0 && list != [] && list[0].id == v.fragmentID ==>
                  && (r.outcome.NeedMore? <==>
                        exists g :: g in list && g.id == v.fragmentID && g.offset == v.fragmentOffset)
                  && (r.outcome.NeedMore? || r.outcome.OutOfMemory?) && r.list == list)
  {
  }

  /** Every reachable pending list belongs to one message and holds each place once. */
  lemma {:induction false} RunKeepsOneMessage(list: seq<Fragment>, packets: seq<Packet>)
    requires OneMessage(list)
    ensures OneMessage(Run(list, packets).list)
    ensures (forall p <- packets :: FragmentOf(p).None?) ==> Run(list, packets).list == list
    decreases |packets|
  {
    if packets != [] {
      StepKeepsOneMessage(list, packets[0]);
      RunKeepsOneMessage(Step(list, packets[0]).list, packets[1..]);
    }
  }

  /** The first fragment among the packets, if any, belongs to another message than the list. */
  predicate NextMessageDiffers(list: seq<Fragment>, packets: seq<Packet>)
    decreases |packets|
  {
    if packets == [] || list == [] then true
    else match FragmentOf(packets[0])
         case None => NextMessageDiffers(list, packets[1..])
         case Some(id) => id != list[0].id
  }

  /**
   * A leftover of an earlier message never contributes to what later calls return: as soon as
   * the next fragment has another ID, the run is the run from an empty list.
   */
  lemma {:induction false} LeftoverIsInvisible(list: seq<Fragment>, packets: seq<Packet>)
    requires NextMessageDiffers(list, packets)
    ensures Run(list, packets).outcomes == Run([], packets).outcomes
    ensures (exists p <- packets :: FragmentOf(p).Some?) ==> Run(list, packets) == Run([], packets)
    decreases |packets|
  {
    if packets != [] && list != [] {
      var p := packets[0];
      match FragmentOf(p) {
        case None =>
          assert Step(list, p) == Step([], p).(list := list);
          LeftoverIsInvisible(list, packets[1..]);
        case Some(_) =>
          assert Step(list, p) == Step([], p);
      }
    }
  }

  /** A packet without a fragment leaves the list alone and returns what it returns from any list. */
  lemma OtherStep(list: seq<Fragment>, p: Packet)
    requires FragmentOf(p).None?
    ensures Step(list, p).list == list && !Fatal(Step(list, p).outcome)
    ensures Step(list, p).outcome == Step([], p).outcome
  {
  }

  /** The packets that carry a fragment */
  function Fragments(packets: seq<Packet>): seq<Packet> {
    if packets == [] then []
    else (if FragmentOf(packets[0]).Some? then [packets[0]] else []) + Fragments(packets[1..])
  }

  /** What those packets return, out of what all of them return */
  function OfFragments(packets: seq<Packet>, outcomes: seq<Outcome>): seq<Outcome> {
    if packets == [] || outcomes == [] then []
    else (if FragmentOf(packets[0]).Some? then [outcomes[0]] else []) + OfFragments(packets[1..], outcomes[1..])
  }

  /** What packets without a fragment return in a run is what they return from an empty list. */
  ghost predicate OthersAsAlone(packets: seq<Packet>, outcomes: seq<Outcome>) {
    forall j :: 0 <= j < |packets| && j < |outcomes| && FragmentOf(packets[j]).None? ==>
      outcomes[j] == Step([], packets[j]).outcome
  }

  lemma AlsoAlone(packets: seq<Packet>, first: Outcome, outcomes: seq<Outcome>)
    requires packets != [] && OthersAsAlone(packets[1..], outcomes)
    requires FragmentOf(packets[0]).None? ==> first == Step([], packets[0]).outcome
    ensures OthersAsAlone(packets, [first] + outcomes)
  {
  }

  lemma {:induction false} OthersAlone(list: seq<Fragment>, packets: seq<Packet>)
    ensures OthersAsAlone(packets, Run(list, packets).outcomes)
    decreases |packets|
  {
    if packets != [] {
      var s := Step(list, packets[0]);
      if FragmentOf(packets[0]).None? { OtherStep(list, packets[0]); }
      if !Fatal(s.outcome) {
        OthersAlone(s.list, packets[1..]);
        RunFirst(list, packets);
        AlsoAlone(packets, s.outcome, Run(s.list, packets[1..]).outcomes);
      }
    }
  }

  lemma FirstOfFragments(packets: seq<Packet>)
    requires packets != []
    ensures Fragments(packets) ==
            if FragmentOf(packets[0]).Some? then [packets[0]] + Fragments(packets[1..]) else Fragments(packets[1..])
    ensures FragmentOf(packets[0]).Some? ==> Fragments(packets)[1..] == Fragments(packets[1..])
  {
  }

  lemma {:induction false} FragmentsAmongOthers(list: seq<Fragment>, packets: seq<Packet>)
    ensures Run(list, packets).list == Run(list, Fragments(packets)).list
    ensures OfFragments(packets, Run(list, packets).outcomes) == Run(list, Fragments(packets)).outcomes
    decreases |packets|
  {
    if packets != [] {
      var s := Step(list, packets[0]);
      FirstOfFragments(packets);
      if FragmentOf(packets[0]).None? { OtherStep(list, packets[0]); }
      if !Fatal(s.outcome) {
        FragmentsAmongOthers(s.list, packets[1..]);
        RunFirst(list, packets);
      }
    }
  }

  /** Packets without a fragment, wherever they come in a run, change nothing for the fragments. */
  lemma OthersPassThrough(list: seq<Fragment>, packets: seq<Packet>)
    ensures Run(list, packets).list == Run(list, Fragments(packets)).list
    ensures OfFragments(packets, Run(list, packets).outcomes) == Run(list, Fragments(packets)).outcomes
    ensures OthersAsAlone(packets, Run(list, packets).outcomes)
  {
    FragmentsAmongOthers(list, packets);
    OthersAlone(list, packets);
  }

  lemma RunFirst(list: seq<Fragment>, packets: seq<Packet>)
    requires packets != [] && !Fatal(Step(list, packets[0]).outcome)
    ensures var s := Step(list, packets[0]);
            var rest := Run(s.list, packets[1..]);
            && Run(list, packets) == RunResult(rest.list, [s.outcome] + rest.outcomes)
            && Run(list, packets).outcomes[1..] == rest.outcomes
  {
  }

  // ---------------------------------------------------------------- tiling

  predicate Covers(f: Fragment, p: nat) {
    8 * f.offset <= p < 8 * f.offset + |f.data|
  }

  predicate Covered(list: seq<Fragment>, p: nat) {
    exists f :: f in list && Covers(f, p)
  }

  /**
   * The fragments cover [0, total) without gap and without overlap, and no byte lies beyond.
   * An empty fragment covers nothing, wherever it stands.
   */
  ghost predicate Tiles(list: seq<Fragment>, total: nat) {
    && (forall p: nat :: p < total ==> Covered(list, p))
    && (forall i, j, p: nat :: 0 <= i < j < |list| ==> !(Covers(list[i], p) && Covers(list[j], p)))
    && (forall f <- list :: f.data != [] ==> EndOf(f) <= total)
  }

  /** Distinct places, and `k` the only fragment that is last; the others may have any length. */
  ghost predicate OneLast(list: seq<Fragment>, k: nat) {
    && OneMessage(list) && k < |list|
    && (forall i :: 0 <= i < |list| ==> (list[i].last <==> i == k))
  }

  /** What senders produce: all fragments but the last one full, in units of 8 */
  ghost predicate Conforming(list: seq<Fragment>, k: nat) {
    && OneLast(list, k)
    && (forall f <- list :: !f.last ==> |f.data| > 0 && |f.data| % 8 == 0)
  }

  function EndOf(f: Fragment): nat {
    8 * f.offset + |f.data|
  }

  lemma {:induction false} TotalWithoutLast(list: seq<Fragment>, acc: nat)
    requires forall f <- list :: !f.last
    ensures TotalSize(list, acc) == acc
  {
    if list != [] { TotalWithoutLast(list[1..], acc); }
  }

  /** With one last fragment the size test asks for the end of that fragment. */
  lemma {:induction false} TotalIsEndOfLast(list: seq<Fragment>, acc: nat, k: nat)
    requires k < |list| && forall i :: 0 <= i < |list| ==> (list[i].last <==> i == k)
    ensures TotalSize(list, acc) == EndOf(list[k])
  {
    if k == 0 {
      TotalWithoutLast(list[1..], EndOf(list[0]));
    } else {
      TotalIsEndOfLast(list[1..], acc, k - 1);
    }
  }

  lemma OnlyOneLast(list: seq<Fragment>, k: nat, f: Fragment)
    requires OneLast(list, k) && f in list && f.last
    ensures f == list[k]
  {
    var i :| 0 <= i < |list| && list[i] == f;
  }

  // ---- sizes of a part of the list

  lemma {:induction false} SizeOfOne(list: seq<Fragment>, f: Fragment, off: nat, next: nat)
    requires f in list && off <= f.offset < next
    ensures SizeFrom(list, off) >= |f.data| + SizeFrom(list, next)
  {
    FewerBeyond(list[1..], off, next);
    if list[0] != f { SizeOfOne(list[1..], f, off, next); }
  }

  lemma {:induction false} SizeOfTwo(list: seq<Fragment>, f: Fragment, g: Fragment, off: nat, next: nat)
    requires f in list && g in list && f != g
    requires off <= f.offset < next && off <= g.offset < next
    ensures SizeFrom(list, off) >= |f.data| + |g.data| + SizeFrom(list, next)
  {
    if list[0] == f {
      SizeOfOne(list[1..], g, off, next);
    } else if list[0] == g {
      SizeOfOne(list[1..], f, off, next);
    } else {
      SizeOfTwo(list[1..], f, g, off, next);
    }
  }

  lemma {:induction false} SizeOfNone(list: seq<Fragment>, off: nat, next: nat)
    requires off <= next
    requires forall g <- list :: off <= g.offset < next ==> g.data == []
    ensures SizeFrom(list, off) == SizeFrom(list, next)
  {
    if list != [] { SizeOfNone(list[1..], off, next); }
  }

  /** Only f holds bytes between off and next. */
  lemma {:induction false} SizeOfOnly(list: seq<Fragment>, f: Fragment, off: nat, next: nat)
    requires OneMessage(list) && f in list && off <= f.offset < next
    requires forall g <- list :: g != f && off <= g.offset < next ==> g.data == []
    ensures SizeFrom(list, off) == |f.data| + SizeFrom(list, next)
  {
    if list[0] == f {
      forall g | g in list[1..] ensures g != f {
        var j :| 0 <= j < |list[1..]| && list[1..][j] == g;
        assert list[j + 1] == g;
      }
      SizeOfNone(list[1..], off, next);
    } else {
      SizeOfOnly(list[1..], f, off, next);
    }
  }

  lemma {:induction false} NothingBeyond(list: seq<Fragment>, next: nat)
    requires forall g <- list :: g.offset >= next ==> g.data == []
    ensures SizeFrom(list, next) == 0
  {
    if list != [] { NothingBeyond(list[1..], next); }
  }

  lemma SamePlaceSameFragment(list: seq<Fragment>, f: Fragment, g: Fragment)
    requires OneMessage(list) && f in list && g in list && f.offset == g.offset
    ensures f == g
  {
    var i :| 0 <= i < |list| && list[i] == f;
    var j :| 0 <= j < |list| && list[j] == g;
    assert !(i < j) && !(j < i);
  }

  // ---- chains

  /** Fragments that follow each other without gap, from an offset on, the last one being last */
  ghost predicate Contiguous(chain: seq<Fragment>, off: nat)
    decreases |chain|
  {
    && chain != [] && chain[0].offset == off
    && if |chain| == 1 then chain[0].last
       else !chain[0].last && |chain[0].data| % 8 == 0
            && Contiguous(chain[1..], off + |chain[0].data| / 8)
  }

  lemma {:induction false} WalkIsContiguous(list: seq<Fragment>, k: nat, off: nat)
    requires Conforming(list, k)
    ensures match WalkFrom(list, off)
            case Gap => true
            case Hanging => false
            case Overrunning => false
            case Joined(chain) => Contiguous(chain, off) && (forall f <- chain :: f in list)
    decreases AtOrBeyond(list, off)
  {
    var found := FindAt(list, off);
    if found.Some? && !found.value.last {
      var f := found.value;
      FewerBeyond(list, off, off + |f.data| / 8);
      WalkIsContiguous(list, k, off + |f.data| / 8);
    }
  }

  function LastOf(chain: seq<Fragment>): Fragment
    requires chain != []
  {
    chain[|chain| - 1]
  }

  /** The end of a chain is the end of its last fragment, which all others precede. */
  lemma {:induction false} ChainSpan(chain: seq<Fragment>, off: nat)
    requires Contiguous(chain, off)
    ensures LastOf(chain).last && LastOf(chain).offset >= off
    ensures |Flatten(chain)| == EndOf(LastOf(chain)) - 8 * off
    ensures forall f <- chain :: off <= f.offset && EndOf(f) <= EndOf(LastOf(chain))
    decreases |chain|
  {
    if |chain| > 1 {
      ChainSpan(chain[1..], off + |chain[0].data| / 8);
    } else {
      assert chain == [chain[0]];
    }
  }

  lemma HoldsShifted(pre: seq<byte>, buf: seq<byte>, at: nat, part: seq<byte>)
    requires Holds(buf, at, part)
    ensures Holds(pre + buf, |pre| + at, part)
  {
    assert (pre + buf)[|pre| + at..|pre| + at + |part|] == buf[at..at + |part|];
  }

  /** In the bytes of a chain each fragment stands at its own place. */
  lemma {:induction false} ChainBytes(chain: seq<Fragment>, off: nat, f: Fragment)
    requires Contiguous(chain, off) && f in chain
    ensures off <= f.offset && Holds(Flatten(chain), 8 * (f.offset - off), f.data)
    decreases |chain|
  {
    var head := chain[0].data;
    if f != chain[0] {
      var next := off + |head| / 8;
      ChainBytes(chain[1..], next, f);
      HoldsShifted(head, Flatten(chain[1..]), 8 * (f.offset - next), f.data);
    } else {
      assert Flatten(chain)[..|head|] == head;
    }
  }

  lemma {:induction false} ChainCovers(chain: seq<Fragment>, off: nat, p: nat)
    requires Contiguous(chain, off) && 8 * off <= p < EndOf(LastOf(chain))
    ensures exists f :: f in chain && Covers(f, p)
    decreases |chain|
  {
    if Covers(chain[0], p) {
    } else {
      ChainCovers(chain[1..], off + |chain[0].data| / 8, p);
      var f :| f in chain[1..] && Covers(f, p);
      assert f in chain;
    }
  }

  lemma {:induction false} ChainDisjoint(chain: seq<Fragment>, off: nat, f: Fragment, g: Fragment, p: nat)
    requires Contiguous(chain, off) && f in chain && g in chain && Covers(f, p) && Covers(g, p)
    ensures f == g
    decreases |chain|
  {
    if |chain| > 1 {
      var next := off + |chain[0].data| / 8;
      ChainSpan(chain[1..], next);
      if f in chain[1..] && g in chain[1..] {
        ChainDisjoint(chain[1..], next, f, g, p);
      }
    }
  }

  /** What the walk joins, whatever its lengths: each fragment is found where the one before it leads to. */
  ghost predicate Stepping(chain: seq<Fragment>, off: nat)
    decreases |chain|
  {
    && chain != [] && chain[0].offset == off
    && if |chain| == 1 then chain[0].last
       else !chain[0].last && Stepping(chain[1..], off + |chain[0].data| / 8)
  }

  lemma {:induction false} WalkIsStepping(list: seq<Fragment>, off: nat)
    requires WalkFrom(list, off).Joined?
    ensures var chain := WalkFrom(list, off).chain;
            Stepping(chain, off) && (forall f <- chain :: f in list)
    decreases AtOrBeyond(list, off)
  {
    var f := FindAt(list, off).value;
    if !f.last {
      var next := off + |f.data| / 8;
      FewerBeyond(list, off, next);
      WalkIsStepping(list, next);
      assert ([f] + WalkFrom(list, next).chain)[1..] == WalkFrom(list, next).chain;
    }
  }

  /**
   * A step is never longer than its fragment, so a chain that holds no more bytes than lie before
   * the end of its last fragment has none that is not full.
   */
  lemma {:induction false} SteppingSpan(chain: seq<Fragment>, off: nat)
    requires Stepping(chain, off)
    ensures LastOf(chain).last && LastOf(chain).offset >= off
    ensures |Flatten(chain)| >= EndOf(LastOf(chain)) - 8 * off
    ensures |Flatten(chain)| == EndOf(LastOf(chain)) - 8 * off ==> Contiguous(chain, off)
    decreases |chain|
  {
    if |chain| > 1 {
      SteppingSpan(chain[1..], off + |chain[0].data| / 8);
    } else {
      assert chain == [chain[0]];
    }
  }

  /** A walk that joins in a list that has passed the size test joins fragments without gap, all the bytes. */
  lemma FullWalk(list: seq<Fragment>, k: nat)
    requires OneLast(list, k) && WalkFrom(list, 0).Joined? && CurrentSize(list) == EndOf(list[k])
    ensures var chain := WalkFrom(list, 0).chain;
            && Contiguous(chain, 0) && LastOf(chain) == list[k] && (forall f <- chain :: f in list)
            && |Flatten(chain)| == SizeFrom(list, 0) == EndOf(list[k])
  {
    var chain := WalkFrom(list, 0).chain;
    WalkIsStepping(list, 0);
    SteppingSpan(chain, 0);
    OnlyOneLast(list, k, LastOf(chain));
    WalkWithinSize(list, 0);
    SizeFromZero(list);
  }

  /** If the chain holds as many bytes as there are from off on, it visits every fragment there that has some. */
  lemma {:induction false} FullChainVisitsAll(list: seq<Fragment>, off: nat, g: Fragment)
    requires OneMessage(list) && WalkFrom(list, off).Joined?
    requires |Flatten(WalkFrom(list, off).chain)| == SizeFrom(list, off)
    requires g in list && g.offset >= off && g.data != []
    ensures g in WalkFrom(list, off).chain
    decreases AtOrBeyond(list, off)
  {
    var f := FindAt(list, off).value;
    if g.offset == off {
      SamePlaceSameFragment(list, f, g);
    } else if f.last {
      assert Flatten([f]) == f.data + [];
      SizeOfTwo(list, f, g, off, g.offset + 1);
    } else {
      var next := off + |f.data| / 8;
      var rest := WalkFrom(list, next).chain;
      assert ([f] + rest)[1..] == rest;
      FewerBeyond(list, off, next);
      WalkWithinSize(list, next);
      if g.offset < next { SizeOfTwo(list, f, g, off, next); }
      SizeOfOne(list, f, off, next);
      FullChainVisitsAll(list, next, g);
    }
  }

  /** A walk never joins more bytes than there are. */
  lemma {:induction false} WalkWithinSize(list: seq<Fragment>, off: nat)
    ensures WalkFrom(list, off).Joined? ==> |Flatten(WalkFrom(list, off).chain)| <= SizeFrom(list, off)
    decreases AtOrBeyond(list, off)
  {
    var found := FindAt(list, off);
    if found.Some? {
      var f := found.value;
      FewerBeyond(list, off, off + 1);
      assert Flatten([f]) == f.data + [];
      if !f.last && |f.data| >= 8 {
        var next := off + |f.data| / 8;
        FewerBeyond(list, off, next);
        WalkWithinSize(list, next);
        if WalkFrom(list, next).Joined? {
          assert ([f] + WalkFrom(list, next).chain)[1..] == WalkFrom(list, next).chain;
        }
      }
    }
  }

  // ---- the two directions

  /** A list that passes the size test and whose walk joins tiles the message. */
  lemma JoinedTiles(list: seq<Fragment>, k: nat)
    requires OneLast(list, k)
    requires WalkFrom(list, 0).Joined? && CurrentSize(list) == EndOf(list[k])
    ensures Tiles(list, EndOf(list[k]))
  {
    var chain := WalkFrom(list, 0).chain;
    var total := EndOf(list[k]);
    FullWalk(list, k);
    ChainSpan(chain, 0);
    forall g | g in list && g.data != [] ensures g in chain {
      FullChainVisitsAll(list, 0, g);
    }
    forall p: nat | p < total ensures Covered(list, p) {
      ChainCovers(chain, 0, p);
    }
    forall i, j, p: nat | 0 <= i < j < |list|
      ensures !(Covers(list[i], p) && Covers(list[j], p))
    {
      if Covers(list[i], p) && Covers(list[j], p) {
        ChainDisjoint(chain, 0, list[i], list[j], p);
      }
    }
  }

  /** off is a place where the walk of a tiling can stand: no fragment reaches across it. */
  ghost predicate Boundary(list: seq<Fragment>, k: nat, off: nat)
    requires k < |list|
  {
    && list[k].offset >= off
    && (forall f <- list :: f.offset >= off || EndOf(f) <= 8 * off)
  }

  lemma TilesDisjoint(list: seq<Fragment>, total: nat, f: Fragment, g: Fragment, p: nat)
    requires Tiles(list, total) && f in list && g in list && Covers(f, p) && Covers(g, p)
    ensures f == g
  {
    var i :| 0 <= i < |list| && list[i] == f;
    var j :| 0 <= j < |list| && list[j] == g;
    assert !(i < j) && !(j < i);
  }

  /** At a boundary of a tiling there is a fragment, and it has bytes unless it is the last one. */
  lemma FragmentAtBoundary(list: seq<Fragment>, k: nat, off: nat)
    requires OneLast(list, k) && Tiles(list, EndOf(list[k])) && Boundary(list, k, off)
    ensures FindAt(list, off).Some?
    ensures FindAt(list, off).value.last || FindAt(list, off).value.data != []
  {
    if 8 * off < EndOf(list[k]) {
      assert Covered(list, 8 * off);
      var f :| f in list && Covers(f, 8 * off);
      assert f.offset == off;
      SamePlaceSameFragment(list, f, FindAt(list, off).value);
    } else {
      assert list[k] in list && list[k].offset == off;
      SamePlaceSameFragment(list, list[k], FindAt(list, off).value);
    }
  }

  /** A fragment of a tiling that is not the last one has a length in units of 8: the next one starts at its end. */
  lemma FullInTiling(list: seq<Fragment>, k: nat, f: Fragment)
    requires OneLast(list, k) && Tiles(list, EndOf(list[k])) && f in list && !f.last && f.data != []
    ensures |f.data| % 8 == 0
  {
    var last, end := list[k], EndOf(f);
    if end < EndOf(last) {
      assert Covered(list, end);
      var g :| g in list && Covers(g, end);
      if 8 * g.offset < end { TilesDisjoint(list, EndOf(last), f, g, end - 1); }
    } else if last.data != [] {
      TilesDisjoint(list, EndOf(last), f, last, end - 1);
    }
  }

  /** Inside a full fragment of a tiling no other one starts, except empty ones; its end is a boundary. */
  lemma NextBoundary(list: seq<Fragment>, k: nat, f: Fragment)
    requires OneLast(list, k) && Tiles(list, EndOf(list[k])) && Boundary(list, k, f.offset)
    requires f in list && !f.last && f.data != []
    ensures |f.data| % 8 == 0 && Boundary(list, k, f.offset + |f.data| / 8)
    ensures forall g <- list :: g != f && f.offset <= g.offset < f.offset + |f.data| / 8 ==> g.data == []
  {
    FullInTiling(list, k, f);
    var next := f.offset + |f.data| / 8;
    forall g | g in list && g != f && f.offset <= g.offset < next ensures g.data == [] {
      if g.data != [] {
        assert Covers(f, 8 * g.offset) && Covers(g, 8 * g.offset);
        TilesDisjoint(list, EndOf(list[k]), f, g, 8 * g.offset);
      }
    }
    forall g | g in list ensures g.offset >= next || EndOf(g) <= 8 * next {}
    assert list[k] in list && list[k] != f;
    assert EndOf(f) <= EndOf(list[k]);
  }

  /** Behind the last fragment of a tiling there is nothing. */
  lemma LastHoldsTheRest(list: seq<Fragment>, k: nat)
    requires OneLast(list, k) && Tiles(list, EndOf(list[k]))
    ensures SizeFrom(list, list[k].offset) == |list[k].data|
  {
    var f := list[k];
    forall g | g in list && g != f && f.offset <= g.offset ensures g.data == [] {
      if g.offset == f.offset {
        SamePlaceSameFragment(list, f, g);
      } else if g.data != [] {
        assert EndOf(g) <= EndOf(f);
        TilesDisjoint(list, EndOf(f), f, g, 8 * g.offset);
      }
    }
    SizeOfOnly(list, f, f.offset, f.offset + 1);
    NothingBeyond(list, f.offset + 1);
  }

  /** From every boundary of a tiling the walk joins exactly the rest of the message. */
  lemma {:induction false} TilingWalks(list: seq<Fragment>, k: nat, off: nat)
    requires OneLast(list, k) && Tiles(list, EndOf(list[k])) && Boundary(list, k, off)
    ensures WalkFrom(list, off).Joined?
    ensures SizeFrom(list, off) == EndOf(list[k]) - 8 * off
    decreases AtOrBeyond(list, off)
  {
    FragmentAtBoundary(list, k, off);
    var f := FindAt(list, off).value;
    if f.last {
      OnlyOneLast(list, k, f);
      LastHoldsTheRest(list, k);
    } else {
      var next := off + |f.data| / 8;
      NextBoundary(list, k, f);
      FewerBeyond(list, off, next);
      TilingWalks(list, k, next);
      SizeOfOnly(list, f, off, next);
    }
  }

  /** Size test and walk succeed together exactly on the lists that tile the message. */
  lemma TestsDecideTiling(list: seq<Fragment>, k: nat)
    requires OneLast(list, k)
    ensures CurrentSize(list) == EndOf(list[k]) && WalkFrom(list, 0).Joined? <==> Tiles(list, EndOf(list[k]))
  {
    if Tiles(list, EndOf(list[k])) {
      TilingWalks(list, k, 0);
      SizeFromZero(list);
    }
    if CurrentSize(list) == EndOf(list[k]) && WalkFrom(list, 0).Joined? {
      JoinedTiles(list, k);
    }
  }

  lemma InFullChain(list: seq<Fragment>, chain: seq<Fragment>, f: Fragment)
    requires OneMessage(list) && WalkFrom(list, 0) == Joined(chain) && f in list
    requires |Flatten(chain)| == SizeFrom(list, 0) && Contiguous(chain, 0)
    requires EndOf(f) <= |Flatten(chain)|
    ensures Holds(Flatten(chain), 8 * f.offset, f.data)
  {
    if f.data != [] {
      FullChainVisitsAll(list, 0, f);
      ChainBytes(chain, 0, f);
    }
  }

  /** The joined bytes are the whole message, each fragment at its own place. */
  lemma JoinedBytes(list: seq<Fragment>, k: nat)
    requires OneLast(list, k)
    requires CurrentSize(list) == EndOf(list[k]) && WalkFrom(list, 0).Joined?
    ensures |Flatten(WalkFrom(list, 0).chain)| == EndOf(list[k])
    ensures forall f <- list :: EndOf(f) <= EndOf(list[k]) ==>
              Holds(Flatten(WalkFrom(list, 0).chain), 8 * f.offset, f.data)
  {
    var chain := WalkFrom(list, 0).chain;
    FullWalk(list, k);
    forall f | f in list && EndOf(f) <= EndOf(list[k]) ensures Holds(Flatten(chain), 8 * f.offset, f.data) {
      InFullChain(list, chain, f);
    }
  }

  /**
   * For every list with one last fragment, whatever the lengths of the others: the size test and
   * the offset walk decide exactly whether the fragments tile the message that the last one ends.
   * If they do, each fragment's bytes stand at its own place in the result.  If they do not, more
   * is asked for, the list is discarded, or a short fragment stops the copy.
   */
  lemma ReassembledIffTiles(list: seq<Fragment>, k: nat, msgType: Option<nat>, dataFlag: bool)
    requires OneLast(list, k)
    ensures var total := EndOf(list[k]);
            var r := Assemble(list, msgType, dataFlag);
            && (r.outcome.Complete? <==> total > 0 && Tiles(list, total))
            && (r.outcome.Complete? ==>
                  && r.list == []
                  && |r.outcome.bytes| == total
                  && (forall f <- list :: EndOf(f) <= total ==> Holds(r.outcome.bytes, 8 * f.offset, f.data)))
            && (r.outcome.NeedMore? <==> total == 0 || CurrentSize(list) != total)
            && (r.outcome.NeedMore? ==> r.list == list)
            && (r.outcome.Complete? || r.outcome.NeedMore? || (r.outcome.InvalidFormat? && r.list == [])
                || (exists f :: f in list && Short(f)))
  {
    TotalIsEndOfLast(list, 0, k);
    TestsDecideTiling(list, k);
    if forall f <- list :: !Short(f) { StuckNeedsShort(list, 0); }
    if CurrentSize(list) == EndOf(list[k]) && WalkFrom(list, 0).Joined? {
      JoinedBytes(list, k);
    }
  }

  /**
   * One last fragment is needed: with two, where one fills the room before the other, the older
   * one counts for the size and the copy ends at the other, so that bytes are lost.
   */
  lemma TwoLastFragments(f: Fragment, g: Fragment, msgType: Option<nat>, dataFlag: bool)
    requires f.last && g.last && f.id == g.id
    requires f.offset == 0 && 8 * g.offset == |f.data| > 0
    ensures Accept([g], f, false, msgType, dataFlag) == StepResult([], Complete(f.data, msgType), dataFlag)
  {
    var list := [f] + [g];
    assert list[1..] == [g] && list[0] == f;
    assert TotalSize(list, 0) == TotalSize([g], EndOf(f)) == EndOf(g);
    assert CurrentSize(list) == |f.data| + CurrentSize([g]);
    assert WalkFrom(list, 0) == Joined([f]);
    assert Flatten([f]) == f.data + [] == f.data;
    assert [g][1..] == [] && CurrentSize([g]) == |g.data|;
    assert Pending([g], f.id) == [g];
    assert !Known([g], f);
  }

  // ---------------------------------------------------------------- the copy loop that does not move on

  /** The walk joins or meets a gap, unless there is a short fragment, whatever else is in the list. */
  lemma {:induction false} StuckNeedsShort(list: seq<Fragment>, off: nat)
    requires forall f <- list :: !Short(f)
    ensures WalkFrom(list, off).Gap? || WalkFrom(list, off).Joined?
    decreases AtOrBeyond(list, off)
  {
    var found := FindAt(list, off);
    if found.Some? && !found.value.last {
      FewerBeyond(list, off, off + |found.value.data| / 8);
      StuckNeedsShort(list, off + |found.value.data| / 8);
    }
  }

  /** A list as far as the walk steps: distinct places, none short, each followed by the next */
  ghost predicate Steps(chain: seq<Fragment>, off: nat, end: nat)
    decreases |chain|
  {
    if chain == [] then off == end
    else chain[0].offset == off && !chain[0].last && |chain[0].data| >= 8
         && Steps(chain[1..], off + |chain[0].data| / 8, end)
  }

  /** Fragments of the list lead from an offset to a short one. */
  ghost predicate LeadsToShort(list: seq<Fragment>, chain: seq<Fragment>, off: nat, f: Fragment) {
    && (forall g <- chain :: g in list) && f in list
    && Steps(chain, off, f.offset) && Short(f)
  }

  function AtShort(f: Fragment): Walk {
    if f.data == [] then Hanging else Overrunning
  }

  lemma {:induction false} ShortStops(list: seq<Fragment>, chain: seq<Fragment>, off: nat, f: Fragment)
    requires OneMessage(list) && LeadsToShort(list, chain, off, f)
    ensures WalkFrom(list, off) == AtShort(f)
    decreases |chain|
  {
    var found := FindAt(list, off);
    if chain == [] {
      SamePlaceSameFragment(list, found.value, f);
    } else {
      SamePlaceSameFragment(list, found.value, chain[0]);
      ShortStops(list, chain[1..], off + |chain[0].data| / 8, f);
    }
  }

  lemma {:induction false} StoppedAtShort(list: seq<Fragment>, off: nat)
    returns (chain: seq<Fragment>, f: Fragment)
    requires WalkFrom(list, off).Hanging? || WalkFrom(list, off).Overrunning?
    ensures LeadsToShort(list, chain, off, f) && WalkFrom(list, off) == AtShort(f)
    decreases AtOrBeyond(list, off)
  {
    var g := FindAt(list, off).value;
    if Short(g) {
      chain, f := [], g;
    } else {
      FewerBeyond(list, off, off + |g.data| / 8);
      var rest;
      rest, f := StoppedAtShort(list, off + |g.data| / 8);
      chain := [g] + rest;
    }
  }

  /** Some fragments of the list lead from the start to a short one that is empty, or one that is not. */
  ghost predicate ShortReached(list: seq<Fragment>, empty: bool) {
    exists chain, f :: LeadsToShort(list, chain, 0, f) && (f.data == [] <==> empty)
  }

  lemma ShortReachedIff(list: seq<Fragment>, empty: bool)
    requires OneMessage(list)
    ensures ShortReached(list, empty) <==> WalkFrom(list, 0) == if empty then Hanging else Overrunning
  {
    if WalkFrom(list, 0) == if empty then Hanging else Overrunning {
      var chain, f := StoppedAtShort(list, 0);
    }
    if ShortReached(list, empty) {
      var chain, f :| LeadsToShort(list, chain, 0, f) && (f.data == [] <==> empty);
      ShortStops(list, chain, 0, f);
    }
  }

  /**
   * A call that has passed the size test hangs exactly when fragments that follow each other
   * from the start lead to one that is not last and is empty.
   */
  lemma HangsIff(list: seq<Fragment>, msgType: Option<nat>, dataFlag: bool)
    requires OneMessage(list)
    ensures Assemble(list, msgType, dataFlag).outcome.Hangs? <==>
            TotalSize(list, 0) == CurrentSize(list) > 0 && ShortReached(list, true)
    ensures Assemble(list, msgType, dataFlag).outcome.Hangs? ==> Assemble(list, msgType, dataFlag).list == list
  {
    ShortReachedIff(list, true);
  }

  /** It writes beyond its buffer exactly when they lead to one that is not last and has 1 to 7 bytes. */
  lemma OverrunsIff(list: seq<Fragment>, msgType: Option<nat>, dataFlag: bool)
    requires OneMessage(list)
    ensures Assemble(list, msgType, dataFlag).outcome.Overruns? <==>
            TotalSize(list, 0) == CurrentSize(list) > 0 && ShortReached(list, false)
    ensures Assemble(list, msgType, dataFlag).outcome.Overruns? ==> Assemble(list, msgType, dataFlag).list == list
  {
    ShortReachedIff(list, false);
  }

  /** The sizes of a list of three, of which only the second is last */
  lemma SizesOfThree(f: Fragment, g: Fragment, h: Fragment)
    requires !f.last && g.last && !h.last
    ensures TotalSize([f] + [g, h], 0) == EndOf(g)
    ensures CurrentSize([f] + [g, h]) == |f.data| + |g.data| + |h.data|
  {
    var all := [f] + [g, h];
    assert all[1..] == [g, h] && [g, h][1..] == [h] && [h][1..] == [];
    assert TotalSize([h], EndOf(g)) == TotalSize([], EndOf(g)) == EndOf(g);
    assert TotalSize([g, h], 0) == TotalSize([h], EndOf(g));
    assert CurrentSize([h]) == |h.data| + CurrentSize([]);
    assert CurrentSize([g, h]) == |g.data| + CurrentSize([h]);
  }

  /** Three fragments, the first one short, that pass the size test */
  lemma FirstIsShort(f: Fragment, g: Fragment, h: Fragment, msgType: Option<nat>, dataFlag: bool)
    requires f.id == g.id == h.id && f.offset == 0 && 0 < g.offset < h.offset
    requires Short(f) && g.last && !h.last && EndOf(g) == |f.data| + |g.data| + |h.data|
    ensures OneMessage([g, h])
    ensures Accept([g, h], f, false, msgType, dataFlag).outcome == if f.data == [] then Hangs else Overruns
  {
    SizesOfThree(f, g, h);
    assert ([f] + [g, h])[0] == f;
    assert FindAt([f] + [g, h], 0) == Some(f);
    assert Pending([g, h], f.id) == [g, h] && !Known([g, h], f);
  }

  /** An empty fragment on which the call hangs */
  lemma EmptyFragmentHangs(id: nat, b: byte, dataFlag: bool)
    ensures var list := [Fragment(id, 1, true, [b, b, b, b]), Fragment(id, 2, false, [b, b, b, b, b, b, b, b])];
            && OneMessage(list)
            && Accept(list, Fragment(id, 0, false, []), false, None, dataFlag).outcome == Hangs
  {
    FirstIsShort(Fragment(id, 0, false, []), Fragment(id, 1, true, [b, b, b, b]),
                 Fragment(id, 2, false, [b, b, b, b, b, b, b, b]), None, dataFlag);
  }

  /** A fragment of 4 bytes that is stored until the 12 bytes of the buffer are exceeded */
  lemma ShortFragmentOverruns(id: nat, b: byte, dataFlag: bool)
    ensures var list := [Fragment(id, 1, true, [b, b, b, b]), Fragment(id, 5, false, [b, b, b, b])];
            && OneMessage(list)
            && Accept(list, Fragment(id, 0, false, [b, b, b, b]), false, None, dataFlag).outcome == Overruns
  {
    FirstIsShort(Fragment(id, 0, false, [b, b, b, b]), Fragment(id, 1, true, [b, b, b, b]),
                 Fragment(id, 5, false, [b, b, b, b]), None, dataFlag);
  }
}
