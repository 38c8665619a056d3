/** The pace of a transfer: the bytes that the command lists let the bus take, against the bytes
    of the writes that wait for commands. */
module I2cPacing {
  import opened Sequences
  import opened I2cCommands
  import opened I2cFilling
  import Tx = I2cTxBytes

  // ---- The bytes that the bus takes ----

  function Outs(es: seq<Event>): nat {
    if es == [] then 0 else (if es[0].ByteOut? then 1 else 0) + Outs(es[1..])
  }

  lemma {:induction false} OutsConcat(a: seq<Event>, b: seq<Event>)
    ensures Outs(a + b) == Outs(a) + Outs(b)
  {
    if a == [] {
      assert a + b == b;
    } else {
      assert (a + b)[1..] == a[1..] + b;
      OutsConcat(a[1..], b);
    }
  }

  lemma {:induction false} OutsRepeat(e: Event, n: nat)
    ensures Outs(Repeat(e, n)) == if e.ByteOut? then n else 0
  {
    if n > 0 {
      assert Repeat(e, n)[1..] == Repeat(e, n - 1);
      OutsRepeat(e, n - 1);
    }
  }

  lemma OutsData(read: bool, n: nat)
    ensures Outs(DataEvents(read, n)) == if read then 0 else n
  {
    if !read {
      OutsRepeat(ByteOut(true), n);
    } else if n > 0 {
      OutsRepeat(ByteIn(false), n - 1);
      OutsConcat(Repeat(ByteIn(false), n - 1), [ByteIn(true)]);
    }
  }

  /** The bytes that the bus has brought. */
  function Ins(es: seq<Event>): nat {
    if es == [] then 0 else (if es[0].ByteIn? then 1 else 0) + Ins(es[1..])
  }

  lemma {:induction false} InsConcat(a: seq<Event>, b: seq<Event>)
    ensures Ins(a + b) == Ins(a) + Ins(b)
  {
    if a == [] {
      assert a + b == b;
    } else {
      assert (a + b)[1..] == a[1..] + b;
      InsConcat(a[1..], b);
    }
  }

  /** The bytes to be sent for which there are no commands yet. */
  function TxLeft(e: Element): nat {
    (if e.addrCmdSent then 0 else e.addrReq) + if e.read then 0 else e.cmdBytesNeeded
  }

  function AllLeft(q: seq<Element>): nat {
    if q == [] then 0 else TxLeft(q[0]) + AllLeft(q[1..])
  }

  lemma OutsFour(a: seq<Event>, b: seq<Event>, c: seq<Event>, d: seq<Event>)
    ensures Outs(a + b + c + d) == Outs(a) + Outs(b) + Outs(c) + Outs(d)
  {
    OutsConcat(a + b + c, d);
    OutsConcat(a + b, c);
    OutsConcat(a, b);
  }

  lemma PendingOuts(e: Element)
    ensures Outs(Pending(e)) == TxLeft(e)
  {
    var start := if e.startCmdSent then [] else [StartBit];
    var addr := if e.addrCmdSent then [] else Repeat(ByteOut(true), e.addrReq);
    var stop := if e.stop && !e.stopCmdSent then [StopBit] else [];
    OutsFour(start, addr, DataEvents(e.read, e.cmdBytesNeeded), stop);
    OutsRepeat(ByteOut(true), e.addrReq);
    OutsData(e.read, e.cmdBytesNeeded);
  }

  lemma {:induction false} QueuePendingOuts(q: seq<Element>)
    ensures Outs(QueuePending(q)) == AllLeft(q)
  {
    if q != [] {
      PendingOuts(q[0]);
      QueuePendingOuts(q[1..]);
      OutsConcat(Pending(q[0]), QueuePending(q[1..]));
    }
  }

  // ---- Whether the commands keep up ----

  predicate Writes(w: seq<Element>) {
    forall i :: 0 <= i < |w| ==> w[i].Valid() && !w[i].read && !w[i].stop
  }

  lemma SpendShrinks(e: Element, room: nat)
    requires e.Valid() && !e.read && !e.stop && room <= 15
    ensures var s := Spend(e, room);
            && s.e.Valid() && !s.e.read && !s.e.stop && s.room <= room && TxLeft(s.e) <= TxLeft(e)
            && (s.e.stopCmdSent ==> TxLeft(s.e) == 0)
            && (room >= 2 ==> TxLeft(s.e) < TxLeft(e) || (s.e.stopCmdSent && s.room == room))
  {
  }

  /** A list never takes a step back, and makes progress while bytes are left. */
  lemma {:induction false} AfterListShrinks(w: seq<Element>, room: nat)
    requires Writes(w) && room <= 15
    ensures Writes(AfterList(w, room)) && AllLeft(AfterList(w, room)) <= AllLeft(w)
    ensures room >= 2 && AllLeft(w) > 0 ==> AllLeft(AfterList(w, room)) < AllLeft(w)
  {
    if w != [] && room != 0 {
      var e, s := w[0], Spend(w[0], room);
      SpendShrinks(e, room);
      hide Spend;
      if e.stopCmdSent {
        AfterListShrinks(w[1..], room);
      } else if s.e.stopCmdSent {
        AfterListShrinks(w[1..], s.room);
      }
    }
  }

  /** At the end of a list either no byte of the writes is left, or more bytes than fit the
      FIFO, and so on after every further list. */
  predicate KeepsUp(w: seq<Element>)
    requires Writes(w)
    decreases AllLeft(w)
  {
    AfterListShrinks(w, 15);
    var next := AfterList(w, 15);
    AllLeft(next) == 0 || (AllLeft(next) >= Tx.FIFO_FULL && KeepsUp(next))
  }

  /** Between two lists. */
  predicate Timely(w: seq<Element>)
    requires Writes(w)
  {
    AllLeft(w) == 0 || (AllLeft(w) >= Tx.FIFO_FULL && KeepsUp(w))
  }

  lemma TimelyKeepsUp(w: seq<Element>)
    requires Writes(w)
    ensures Timely(w) ==> KeepsUp(w)
    ensures Writes(AfterList(w, 15)) && (KeepsUp(w) <==> Timely(AfterList(w, 15)))
  {
    AfterListShrinks(w, 15);
  }

  /** Where the writes stand when the transmit interrupt overtakes them. */
  function Overtaken(w: seq<Element>): (m: seq<Element>)
    requires Writes(w) && !KeepsUp(w)
    ensures Writes(m) && |m| == |w| && 0 < AllLeft(m) < Tx.FIFO_FULL
    decreases AllLeft(w)
  {
    AfterListShrinks(w, 15);
    var next := AfterList(w, 15);
    if AllLeft(next) < Tx.FIFO_FULL then next else Overtaken(next)
  }

  /** What a caller can check before the transfer: the queue has no read, or the writes in
      front of the first one keep up. */
  predicate Safe(q: seq<Element>)
    requires AllValid(q) && OnlyLastStops(q)
  {
    var f := FirstRead(q);
    f == |q| || KeepsUp(q[..f])
  }

  predicate AllInitial(q: seq<Element>) {
    forall i :: 0 <= i < |q| ==> q[i].Initial()
  }

  /** The commands of writes that are not started yet. */
  function Slots(w: seq<Element>): nat {
    if w == [] then 0 else 2 + Blocks(w[0].length) + Slots(w[1..])
  }

  lemma {:induction false} SlotsFit(w: seq<Element>, room: nat)
    requires Writes(w) && AllInitial(w) && room <= 15
    ensures AllLeft(AfterList(w, room)) == 0 <==> Slots(w) <= room
  {
    if w != [] && room >= 2 {
      var s := Spend(w[0], room);
      if s.e.stopCmdSent {
        SlotsFit(w[1..], s.room);
      } else {
        assert w[1..] != [] ==> w[1..][0].Initial() && TxLeft(w[1..][0]) > 0;
      }
    }
  }

  /** Writes whose commands fit one list keep up; if their bytes fit the FIFO, only those do. */
  lemma ShortWrites(w: seq<Element>)
    requires Writes(w) && AllInitial(w)
    ensures Slots(w) <= 15 ==> KeepsUp(w)
    ensures AllLeft(w) < Tx.FIFO_FULL ==> (KeepsUp(w) <==> Slots(w) <= 15)
  {
    SlotsFit(w, 15);
    AfterListShrinks(w, 15);
  }
}
