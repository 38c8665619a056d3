/** A transfer as a whole: the command lists, the events on the bus and the bytes in the transmit
    FIFO together, and what is lost when the commands do not keep up with the bytes. */
module I2cTransfer {
  import opened Sequences
  import opened I2cCommands
  import opened I2cFilling
  import opened I2cPacing
  import Tx = I2cTxBytes

  // ---- The state of a transfer ----

  /** The queue for commands and for bytes, queuePos, the bus events so far, the events of the
      current list that are still to come, the bytes pushed so far, and how many of them are in
      the FIFO. kept and later are the parts of the traffic around what will never be sent. */
  datatype Run = Run(q: seq<Element>, tx: seq<Tx.TxElement>, pos: nat, bus: seq<Event>, rest: seq<Event>,
                     pushed: seq<byte>, cnt: nat, kept: seq<Event>, later: seq<Event>)

  /** The same queue, seen from both sides. */
  predicate Alike(q: seq<Element>, tx: seq<Tx.TxElement>) {
    |q| == |tx| && forall i :: 0 <= i < |q| ==>
      q[i].read == tx[i].read && 1 <= q[i].addrReq == tx[i].addrReq <= 2 && q[i].length == |tx[i].data|
  }

  lemma {:induction false} TrafficBytes(q: seq<Element>, tx: seq<Tx.TxElement>)
    requires Alike(q, tx)
    ensures Outs(QueueTraffic(q)) == |Tx.QueueBytes(tx)|
  {
    if q != [] {
      TrafficBytes(q[1..], tx[1..]);
      var e := q[0];
      OutsFour([StartBit], Repeat(ByteOut(true), e.addrReq), DataEvents(e.read, e.length), if e.stop then [StopBit] else []);
      OutsRepeat(ByteOut(true), e.addrReq);
      OutsData(e.read, e.length);
      OutsConcat(Traffic(e), QueueTraffic(q[1..]));
    }
  }

  /** Traffic is only ever cut, never added or reordered. */
  predicate Conserved(r: Run, total: seq<Event>)
    requires r.pos <= |r.q|
  {
    && r.kept + QueuePending(r.q[..r.pos]) + r.later == total
    && r.bus + r.rest + QueuePending(r.q[r.pos..]) == r.kept + r.later
  }

  predicate Fifo(r: Run) {
    && |r.pushed| == Outs(r.bus) + r.cnt
    && Tx.Balanced(r.pushed, r.tx, Tx.QueueBytes(r.tx)) && Tx.PushedBefore(r.tx, r.pos)
  }

  /** queuePos stands at the start or at a read. While it is at the start, nothing was pushed
      from the first read on, and there are no commands for it unless the writes are done. */
  predicate Front(r: Run, q0: seq<Element>)
    requires |r.q| == |q0|
  {
    var f := FirstRead(q0);
    && (r.pos == 0 || (r.pos < |q0| && q0[r.pos].read))
    && (r.pos == 0 < f < |q0| ==> Tx.Untouched(r.tx, f) && (AllLeft(r.q[..f]) == 0 || r.q[f..] == q0[f..]))
  }

  /** Commands and bytes are both taken from one element after the other. */
  predicate Ordered(r: Run) {
    && (forall i, j :: r.pos <= i < j < |r.q| && !r.q[i].stopCmdSent ==> r.q[j].Initial())
    && Tx.InOrder(r.tx)
  }

  predicate Invariant(r: Run, q0: seq<Element>) {
    && AllValid(r.q) && OnlyLastStops(r.q) && SameElements(q0, r.q) && Alike(q0, r.tx) && r.pos <= |r.q|
    && Conserved(r, QueueTraffic(q0)) && Fifo(r) && Front(r, q0) && Ordered(r)
  }

  /** The writes in front of the first read, as they stand. */
  function Ahead(r: Run, q0: seq<Element>): seq<Element>
    requires |r.q| == |q0|
  {
    r.q[..FirstRead(q0)]
  }

  lemma AheadWrites(q0: seq<Element>, q: seq<Element>)
    requires AllValid(q) && OnlyLastStops(q) && SameElements(q0, q) && FirstRead(q0) < |q0|
    ensures Writes(q[..FirstRead(q0)])
  {
    assert forall i :: 0 <= i < |q| ==> SameElement(q0[i], q[i]);
  }

  // ---- What each step keeps ----

  lemma SplitPending(q: seq<Element>, k: nat)
    requires k <= |q|
    ensures QueuePending(q) == QueuePending(q[..k]) + QueuePending(q[k..])
  {
    hide QueuePending;
    Split(q, k, k);
    PendingConcat(q[..k], q[k..]);
  }

  /** A filled list takes its events out of what is pending from queuePos on. */
  lemma FillConserves(r: Run, total: seq<Event>, q': seq<Element>, cs: seq<Command>)
    requires r.pos <= |r.q| && Conserved(r, total) && r.rest == [] && Filled(r.q, q', r.pos, cs)
    ensures Conserved(r.(q := q', rest := Events(cs)), total)
  {
    hide Events, QueuePending, Terminated, Stops, FrontFilled;
    assert r.bus + [] == r.bus;
    Assoc(r.bus, Events(cs), QueuePending(q'[r.pos..]));
  }

  lemma ExecuteConserves(r: Run, total: seq<Event>)
    requires r.pos <= |r.q| && Conserved(r, total) && r.rest != []
    ensures Conserved(r.(bus := r.bus + [r.rest[0]], rest := r.rest[1..]), total)
  {
    hide QueuePending;
    assert r.bus + [r.rest[0]] + r.rest[1..] == r.bus + r.rest;
  }

  /** When queuePos leaves the start, what is pending in front of it is cut out. */
  lemma OvertakeConserves(r: Run, total: seq<Event>, f: nat)
    requires r.pos == 0 && f <= |r.q| && Conserved(r, total)
    ensures Conserved(r.(pos := f, kept := r.bus + r.rest, later := QueuePending(r.q[f..])), total)
  {
    SplitPending(r.q, f);
    assert r.q[..0] == [] && r.q[0..] == r.q;
    assert r.kept + [] == r.kept;
    hide QueuePending;
    Assoc(r.bus + r.rest, QueuePending(r.q[..f]), QueuePending(r.q[f..]));
  }

  /** The elements from i on, up to k, need no further command. */
  predicate ServedTo(q: seq<Element>, i: nat, k: nat) {
    i <= k <= |q| && forall j :: i <= j < k ==> Served(q[j])
  }

  lemma ServedNothing(q: seq<Element>, i: nat, k: nat)
    requires AllValid(q) && ServedTo(q, i, k)
    ensures QueuePending(q[..k]) == QueuePending(q[..i]) && QueuePending(q[i..]) == QueuePending(q[k..])
  {
    hide QueuePending, Served;
    var some := q[i..k];
    QueuePendingIffNotServed(some);
    PendingConcat(q[..i], some);
    PendingConcat(some, q[k..]);
    assert q[..i] + some == q[..k] && some + q[k..] == q[i..];
  }

  /** queuePos may move on over elements that have had their commands. */
  lemma MoveConserves(r: Run, total: seq<Event>, k: nat)
    requires AllValid(r.q) && ServedTo(r.q, r.pos, k) && Conserved(r, total)
    ensures Conserved(r.(pos := k), total)
  {
    ServedNothing(r.q, r.pos, k);
  }

  lemma {:induction false} TrafficConcat(a: seq<Element>, b: seq<Element>)
    ensures QueueTraffic(a + b) == QueueTraffic(a) + QueueTraffic(b)
  {
    if a == [] {
      assert a + b == b;
    } else {
      assert (a + b)[1..] == a[1..] + b;
      TrafficConcat(a[1..], b);
      hide Traffic;
      Assoc(Traffic(a[0]), QueueTraffic(a[1..]), QueueTraffic(b));
    }
  }

  lemma SplitTraffic(q: seq<Element>, k: nat)
    requires k <= |q|
    ensures QueueTraffic(q) == QueueTraffic(q[..k]) + QueueTraffic(q[k..])
  {
    hide QueueTraffic;
    Split(q, k, k);
    TrafficConcat(q[..k], q[k..]);
  }

  lemma FrontBytes(q0: seq<Element>, tx: seq<Tx.TxElement>, f: nat)
    requires Alike(q0, tx) && f <= |q0|
    ensures Tx.BytesTo(tx, f) == Outs(QueueTraffic(q0[..f]))
    ensures QueueTraffic(q0) == QueueTraffic(q0[..f]) + QueueTraffic(q0[f..])
  {
    hide QueueTraffic, Outs, Tx.QueueBytes;
    AlikeFront(q0, tx, f);
    SplitTraffic(q0, f);
    TrafficBytes(q0[..f], tx[..f]);
  }

  lemma AlikeFront(q: seq<Element>, tx: seq<Tx.TxElement>, f: nat)
    requires Alike(q, tx) && f <= |q|
    ensures Alike(q[..f], tx[..f])
  {
  }

  lemma Unstarted(q0: seq<Element>, q: seq<Element>, f: nat)
    requires AllInitial(q0) && f <= |q0| == |q| && q[f..] == q0[f..]
    ensures QueuePending(q) == QueuePending(q[..f]) + QueueTraffic(q0[f..])
  {
    assert forall e <- q0[f..] :: e.Initial();
    PendingInitially(q0[f..]);
    SplitPending(q, f);
  }

  lemma AtStart(r: Run, total: seq<Event>)
    requires r.pos == 0 && Conserved(r, total)
    ensures r.bus + r.rest + QueuePending(r.q) == total
  {
    assert r.q[..0] == [] && r.q[0..] == r.q;
    assert r.kept + [] == r.kept;
  }

  /** While the writes wait for commands, the bytes of these writes are those the bus has taken,
      those of the current list, and those there is no command for. */
  lemma FrontBalance(r: Run, q0: seq<Element>)
    requires Invariant(r, q0) && AllInitial(q0)
    requires r.pos == 0 < FirstRead(q0) < |q0| && AllLeft(Ahead(r, q0)) > 0
    ensures Tx.BytesTo(r.tx, FirstRead(q0)) == Outs(r.bus) + Outs(r.rest) + AllLeft(Ahead(r, q0))
  {
    var f := FirstRead(q0);
    assert |r.q| == |q0|;
    hide QueueTraffic, QueuePending, Alike, AllValid, OnlyLastStops, SameElements, Fifo, Conserved, AllInitial, Tx.BytesTo, Outs;
    FrontBytes(q0, r.tx, f);
    Unstarted(q0, r.q, f);
    AtStart(r, QueueTraffic(q0));
    QueuePendingOuts(r.q[..f]);
    BalanceOuts(r.bus, r.rest, QueuePending(r.q[..f]), QueueTraffic(q0[f..]), QueueTraffic(q0[..f]));
  }

  lemma BalanceOuts(bus: seq<Event>, rest: seq<Event>, ahead: seq<Event>, behind: seq<Event>, front: seq<Event>)
    requires bus + rest + (ahead + behind) == front + behind
    ensures Outs(bus) + Outs(rest) + Outs(ahead) == Outs(front)
  {
    hide Outs;
    OutsConcat(bus + rest, ahead + behind);
    OutsConcat(bus, rest);
    OutsConcat(ahead, behind);
    OutsConcat(front, behind);
  }

  // ---- The transmit interrupt ----

  /** The state after the transmit interrupt. */
  function AfterFeed(r: Run, tx: seq<Tx.TxElement>, pos: nat, pushed: seq<byte>, cnt: nat): Run
    requires pos <= |r.q|
  {
    var r' := r.(tx := tx, pushed := pushed, cnt := cnt);
    if pos == r.pos then r' else r'.(pos := pos, kept := r.bus + r.rest, later := QueuePending(r.q[pos..]))
  }

  /** queuePos only ever leaves the start, for the first read, and only when at most as many
      bytes as fit the FIFO are not on the bus yet. */
  lemma OvertakesAtFirstRead(r: Run, q0: seq<Element>, tx: seq<Tx.TxElement>, pos: nat)
    requires Invariant(r, q0) && Tx.Fed(r.tx, tx, r.pos, pos, Outs(r.bus))
    ensures pos <= |q0|
    ensures pos != r.pos ==> r.pos == 0 < pos == FirstRead(q0) < |q0| && Tx.BytesTo(r.tx, pos) < Outs(r.bus) + Tx.FIFO_FULL
    ensures pos == r.pos == 0 < FirstRead(q0) < |q0| ==>
      Tx.Untouched(tx, FirstRead(q0)) && Tx.BytesTo(r.tx, FirstRead(q0)) >= Outs(r.bus) + Tx.FIFO_FULL
  {
    var f := FirstRead(q0);
    assert forall i :: 0 <= i < |q0| ==> SameElement(q0[i], r.q[i]);
    hide Conserved, Fifo, Tx.BytesTo, AllValid, OnlyLastStops, SameElements;
    if pos != r.pos {
      assert r.pos == 0;
      FirstReadIs(q0, pos);
    } else if r.pos == 0 < f < |q0| {
      assert Tx.NextRead(r.tx, 0, f);
    }
  }

  lemma AlikeStays(q: seq<Element>, tx: seq<Tx.TxElement>, tx': seq<Tx.TxElement>)
    requires Alike(q, tx) && Tx.SameQueue(tx, tx')
    ensures Alike(q, tx')
  {
    assert forall i :: 0 <= i < |tx| ==> Tx.SameBytes(tx[i], tx'[i]);
  }

  lemma FeedFront(r: Run, q0: seq<Element>, tx: seq<Tx.TxElement>, pos: nat, pushed: seq<byte>, cnt: nat)
    requires Invariant(r, q0) && Tx.Fed(r.tx, tx, r.pos, pos, Outs(r.bus)) && pos <= |r.q|
    ensures Front(AfterFeed(r, tx, pos, pushed, cnt), q0) && Alike(q0, tx)
  {
    OvertakesAtFirstRead(r, q0, tx, pos);
    AlikeStays(q0, r.tx, tx);
    hide Invariant, Alike, Fifo, Conserved, Tx.Fed, Tx.Untouched, AllLeft, Tx.BytesTo;
    assert Front(r, q0) by { assert Invariant(r, q0); }
  }

  lemma FeedFifo(r: Run, tx: seq<Tx.TxElement>, pos: nat, pushed: seq<byte>, cnt: nat)
    requires Tx.Fed(r.tx, tx, r.pos, pos, Outs(r.bus)) && pos <= |r.q|
    requires Tx.Balanced(pushed, tx, Tx.QueueBytes(r.tx)) && |pushed| == Outs(r.bus) + cnt
    ensures Fifo(AfterFeed(r, tx, pos, pushed, cnt))
  {
    Tx.SameQueueBytes(r.tx, tx);
    hide Tx.Balanced, Tx.PushedBefore, Tx.SameQueue, Tx.BytesTo, Tx.Untouched, Outs, QueuePending;
  }

  lemma FeedConserves(r: Run, total: seq<Event>, tx: seq<Tx.TxElement>, pos: nat, pushed: seq<byte>, cnt: nat)
    requires r.pos <= |r.q| && Conserved(r, total) && pos <= |r.q| && (pos != r.pos ==> r.pos == 0)
    ensures Conserved(AfterFeed(r, tx, pos, pushed, cnt), total)
  {
    hide Conserved, QueuePending;
    if pos != r.pos {
      OvertakeConserves(r, total, pos);
    }
    SameConserved(r, AfterFeed(r, tx, pos, pushed, cnt), total, pos);
  }

  lemma FeedKeeps(r: Run, q0: seq<Element>, tx: seq<Tx.TxElement>, pos: nat, pushed: seq<byte>, cnt: nat)
    requires Invariant(r, q0) && Tx.Fed(r.tx, tx, r.pos, pos, Outs(r.bus))
    requires Tx.Balanced(pushed, tx, Tx.QueueBytes(r.tx)) && |pushed| == Outs(r.bus) + cnt
    ensures pos <= |r.q| && Invariant(AfterFeed(r, tx, pos, pushed, cnt), q0)
  {
    OvertakesAtFirstRead(r, q0, tx, pos);
    FeedFront(r, q0, tx, pos, pushed, cnt);
    FeedFifo(r, tx, pos, pushed, cnt);
    FeedConserves(r, QueueTraffic(q0), tx, pos, pushed, cnt);
    hide Conserved, Fifo, Front, Alike, AllValid, OnlyLastStops, SameElements, Tx.Fed, Tx.Balanced, Tx.BytesTo, QueueTraffic;
  }

  /** The FIFO has no part in the conservation. */
  lemma SameConserved(r: Run, r': Run, total: seq<Event>, pos: nat)
    requires r.pos <= |r.q| && pos <= |r.q|
    requires r'.q == r.q && r'.bus == r.bus && r'.rest == r.rest && r'.pos == pos
    requires if pos == r.pos then r'.kept == r.kept && r'.later == r.later && Conserved(r, total)
             else r'.kept == r.bus + r.rest && r'.later == QueuePending(r.q[pos..])
                  && Conserved(r.(pos := pos, kept := r.bus + r.rest, later := QueuePending(r.q[pos..])), total)
    ensures Conserved(r', total)
  {
  }

  // ---- In time or too late ----

  /** Nothing will be lost: the writes are in time, or were when queuePos left them. */
  predicate OnTime(r: Run, q0: seq<Element>)
    requires r.pos <= |r.q| == |q0|
  {
    var f := FirstRead(q0);
    f < |q0| ==> if r.pos == 0 then Writes(r.q[..f]) && Timely(r.q[..f]) else QueuePending(r.q[..r.pos]) == []
  }

  /** Some of the writes w0 will be lost, where they stand at w. */
  predicate Losing(w: seq<Element>, w0: seq<Element>)
    requires Writes(w0) && !KeepsUp(w0)
  {
    && Writes(w) && AllLeft(w) > 0
    && if AllLeft(w) < Tx.FIFO_FULL then w == Overtaken(w0) else !KeepsUp(w) && Overtaken(w) == Overtaken(w0)
  }

  /** Commands will be lost, or have been. */
  predicate Late(r: Run, q0: seq<Element>)
    requires r.pos <= |r.q| == |q0| && FirstRead(q0) < |q0|
    requires Writes(q0[..FirstRead(q0)]) && !KeepsUp(q0[..FirstRead(q0)])
  {
    var f := FirstRead(q0);
    if r.pos == 0 then Losing(r.q[..f], q0[..f])
    else r.pos >= f && QueuePending(r.q[..r.pos]) == QueuePending(Overtaken(q0[..f])) && r.later == QueueTraffic(q0[f..])
  }

  /** Between two lists, nothing will be lost. */
  predicate InTime(r: Run, q0: seq<Element>)
    requires r.pos <= |r.q| == |q0|
  {
    var f := FirstRead(q0);
    f < |q0| ==> if r.pos == 0 then Writes(r.q[..f]) && KeepsUp(r.q[..f]) else QueuePending(r.q[..r.pos]) == []
  }

  /** Between two lists, commands will be lost, or have been. */
  predicate TooLate(r: Run, q0: seq<Element>)
    requires r.pos <= |r.q| == |q0| && FirstRead(q0) < |q0|
    requires Writes(q0[..FirstRead(q0)]) && !KeepsUp(q0[..FirstRead(q0)])
  {
    var f := FirstRead(q0);
    if r.pos == 0 then Writes(r.q[..f]) && !KeepsUp(r.q[..f]) && Overtaken(r.q[..f]) == Overtaken(q0[..f])
    else Late(r, q0)
  }

  lemma {:induction false} NothingLeft(w: seq<Element>)
    requires Writes(w) && AllLeft(w) == 0
    ensures QueuePending(w) == []
  {
    if w != [] {
      NothingLeft(w[1..]);
      PendingIffNotServed(w[0]);
    }
  }

  /** An overtaking transmit interrupt is harmless for writes that are in time. */
  lemma FeedOnTime(r: Run, q0: seq<Element>, tx: seq<Tx.TxElement>, pos: nat, pushed: seq<byte>, cnt: nat)
    requires Invariant(r, q0) && AllInitial(q0) && Tx.Fed(r.tx, tx, r.pos, pos, Outs(r.bus)) && OnTime(r, q0)
    ensures pos <= |r.q| && OnTime(AfterFeed(r, tx, pos, pushed, cnt), q0)
  {
    OvertakesAtFirstRead(r, q0, tx, pos);
    if pos != r.pos {
      var w := Ahead(r, q0);
      if AllLeft(w) > 0 {
        FrontBalance(r, q0);
        assert false;
      }
      NothingLeft(w);
    }
  }

  /** What the state of writes that will be overtaken says about the bytes they still need. */
  lemma LosingLeft(r: Run, q0: seq<Element>, taken: nat)
    requires Invariant(r, q0) && AllInitial(q0) && r.pos == 0 && FirstRead(q0) < |q0| && taken == Outs(r.bus)
    requires Writes(q0[..FirstRead(q0)]) && !KeepsUp(q0[..FirstRead(q0)]) && Late(r, q0)
    ensures var f, w := FirstRead(q0), Ahead(r, q0);
            && (Tx.BytesTo(r.tx, f) < taken + Tx.FIFO_FULL ==> w == Overtaken(q0[..f]))
            && (Tx.BytesTo(r.tx, f) >= taken + Tx.FIFO_FULL && r.rest == [] ==>
                  Writes(w) && !KeepsUp(w) && Overtaken(w) == Overtaken(q0[..f]))
            && QueuePending(r.q[f..]) == QueueTraffic(q0[f..])
  {
    FrontBalance(r, q0);
    PendingInitially(q0[FirstRead(q0)..]);
    hide KeepsUp, Overtaken, Writes, QueuePending, QueueTraffic, Tx.BytesTo, Conserved, Fifo, Ordered, Alike;
  }

  /** It is what makes commands get lost that are not in time. */
  lemma FeedLate(r: Run, q0: seq<Element>, tx: seq<Tx.TxElement>, pos: nat, pushed: seq<byte>, cnt: nat)
    requires Invariant(r, q0) && AllInitial(q0) && Tx.Fed(r.tx, tx, r.pos, pos, Outs(r.bus))
    requires FirstRead(q0) < |q0| && Writes(q0[..FirstRead(q0)]) && !KeepsUp(q0[..FirstRead(q0)]) && Late(r, q0)
    ensures pos <= |r.q| && Late(AfterFeed(r, tx, pos, pushed, cnt), q0)
    ensures r.rest == [] && pos == 0 ==> !KeepsUp(Ahead(r, q0)) && Overtaken(Ahead(r, q0)) == Overtaken(q0[..FirstRead(q0)])
  {
    hide KeepsUp, Overtaken, Writes, QueuePending, QueueTraffic, Tx.BytesTo, Tx.Fed, AllInitial, Conserved, Fifo, Front, Ordered;
    hide Alike, AllValid, OnlyLastStops, Tx.Untouched, AllLeft, Outs;
    OvertakesAtFirstRead(r, q0, tx, pos);
    if r.pos == 0 {
      LosingLeft(r, q0, Outs(r.bus));
    }
  }

  // ---- The refill ----

  lemma StillSame(q0: seq<Element>, q: seq<Element>, q': seq<Element>)
    requires SameElements(q0, q) && SameElements(q, q')
    ensures SameElements(q0, q') && FirstRead(q) == FirstRead(q0)
  {
    assert forall i :: 0 <= i < |q0| ==> SameElement(q0[i], q[i]) && SameElement(q[i], q'[i]);
    FirstReadIs(q, FirstRead(q0));
  }

  lemma {:induction false} SentLeft(w: seq<Element>)
    requires Writes(w) && forall i :: 0 <= i < |w| ==> w[i].stopCmdSent
    ensures AllLeft(w) == 0
  {
    if w != [] {
      assert w[0].Valid() && w[0].stopCmdSent;
      SentLeft(w[1..]);
    }
  }

  /** The first read waits until the writes are done. */
  lemma FrontWaits(q0: seq<Element>, q: seq<Element>, q': seq<Element>, f: nat)
    requires f < |q0| == |q| == |q'| && Writes(q[..f]) && Writes(q'[..f])
    requires q'[..f] == AfterList(q[..f], 15) && (q'[f..] == q[f..] || forall i :: 0 <= i < f ==> q'[i].stopCmdSent)
    requires AllLeft(q[..f]) == 0 || q[f..] == q0[f..]
    ensures AllLeft(q'[..f]) == 0 || q'[f..] == q0[f..]
  {
    if AllLeft(q[..f]) == 0 {
      AfterListShrinks(q[..f], 15);
    } else if q'[f..] != q[f..] {
      assert forall i :: 0 <= i < f ==> q'[..f][i].stopCmdSent;
      SentLeft(q'[..f]);
    }
  }

  lemma FillFront(r: Run, q0: seq<Element>, q': seq<Element>, cs: seq<Command>)
    requires Invariant(r, q0) && Filled(r.q, q', r.pos, cs) && OnlyLastStops(q')
    ensures |q'| == |q0| && SameElements(q0, q') && Front(r.(q := q', rest := Events(cs)), q0)
    ensures r.pos == 0 && FirstRead(q0) < |q0| ==>
      q'[..FirstRead(q0)] == AfterList(Ahead(r, q0), 15) && Writes(Ahead(r, q0)) && Writes(q'[..FirstRead(q0)])
  {
    var f := FirstRead(q0);
    StillSame(q0, r.q, q');
    hide Conserved, Fifo, Terminated, Stops, Events, QueueWork, Alike, SameElements, AllValid, OnlyLastStops, AfterList, Tx.Untouched;
    if r.pos == 0 && f < |q0| {
      AheadWrites(q0, r.q);
      AheadWrites(q0, q');
      FrontWaits(q0, r.q, q', f);
    }
  }

  /** A refill keeps the invariant, and brings the writes forward by one list. */
  lemma FillKeeps(r: Run, q0: seq<Element>, q': seq<Element>, cs: seq<Command>)
    requires Invariant(r, q0) && r.rest == [] && Filled(r.q, q', r.pos, cs) && OnlyLastStops(q')
    ensures Invariant(r.(q := q', rest := Events(cs)), q0)
  {
    FillFront(r, q0, q', cs);
    FillConserves(r, QueueTraffic(q0), q', cs);
    hide Conserved, Terminated, Stops, Events, QueueWork, Alike, SameElements, Front;
  }

  lemma FillOnTime(r: Run, q0: seq<Element>, q': seq<Element>, cs: seq<Command>)
    requires Invariant(r, q0) && Filled(r.q, q', r.pos, cs) && OnlyLastStops(q') && InTime(r, q0)
    ensures |q'| == |q0| && OnTime(r.(q := q', rest := Events(cs)), q0)
  {
    FillFront(r, q0, q', cs);
    hide Invariant, Terminated, Stops, Events, QueueWork, QueuePending, KeepsUp;
    if FirstRead(q0) < |q0| {
      if r.pos == 0 {
        TimelyKeepsUp(Ahead(r, q0));
      } else {
        assert r.q[..r.pos] == q'[..r.pos];
      }
    }
  }

  lemma FillLate(r: Run, q0: seq<Element>, q': seq<Element>, cs: seq<Command>)
    requires Invariant(r, q0) && Filled(r.q, q', r.pos, cs) && OnlyLastStops(q')
    requires FirstRead(q0) < |q0| && Writes(q0[..FirstRead(q0)]) && !KeepsUp(q0[..FirstRead(q0)]) && TooLate(r, q0)
    ensures |q'| == |q0| && Late(r.(q := q', rest := Events(cs)), q0)
  {
    FillFront(r, q0, q', cs);
    hide Invariant, Terminated, Stops, Events, QueueWork, QueuePending;
    if r.pos == 0 {
      TimelyKeepsUp(Ahead(r, q0));
    } else {
      assert r.q[..r.pos] == q'[..r.pos];
    }
  }

  // ---- A transfer, step by step ----

  /** The queue as it is handed over. */
  predicate Handed(q: seq<Element>) {
    Ready(q) && AllInitial(q)
  }

  /** Between two interrupts. With prompt set, the transmit interrupt is never late. */
  predicate Going(r: Run, q0: seq<Element>, prompt: bool)
    requires Handed(q0)
  {
    && Invariant(r, q0)
    && (Safe(q0) ==> OnTime(r, q0))
    && (!Safe(q0) && prompt ==> Writes(q0[..FirstRead(q0)]) && Late(r, q0))
  }

  /** Between two lists. */
  predicate Paused(r: Run, q0: seq<Element>, prompt: bool)
    requires Handed(q0)
  {
    && Invariant(r, q0) && r.rest == []
    && (Safe(q0) ==> InTime(r, q0))
    && (!Safe(q0) && prompt ==> Writes(q0[..FirstRead(q0)]) && TooLate(r, q0))
  }

  /** A list that has been filled. */
  lemma FillGoing(r: Run, q0: seq<Element>, prompt: bool, q': seq<Element>, cs: seq<Command>)
    requires Handed(q0) && Paused(r, q0, prompt) && Filled(r.q, q', r.pos, cs) && OnlyLastStops(q')
    ensures Going(r.(q := q', rest := Events(cs)), q0, prompt)
  {
    hide Invariant, Filled, InTime, TooLate, OnTime, Late, Events, KeepsUp;
    FillKeeps(r, q0, q', cs);
    if Safe(q0) {
      FillOnTime(r, q0, q', cs);
    } else if prompt {
      FillLate(r, q0, q', cs);
    }
  }

  lemma OnTimePaused(r: Run, q0: seq<Element>)
    requires r.pos <= |r.q| == |q0|
    ensures OnTime(r, q0) ==> InTime(r, q0)
  {
    var f := FirstRead(q0);
    if f < |q0| && r.pos == 0 && OnTime(r, q0) {
      TimelyKeepsUp(r.q[..f]);
    }
  }

  /** The transmit interrupt; at the end of a list it settles all that a refill relies on. */
  lemma FeedGoing(r: Run, q0: seq<Element>, prompt: bool, tx: seq<Tx.TxElement>, pos: nat, pushed: seq<byte>, cnt: nat)
    requires Handed(q0) && Going(r, q0, prompt) && Tx.Fed(r.tx, tx, r.pos, pos, Outs(r.bus))
    requires Tx.Balanced(pushed, tx, Tx.QueueBytes(r.tx)) && |pushed| == Outs(r.bus) + cnt
    ensures pos <= |r.q| && Going(AfterFeed(r, tx, pos, pushed, cnt), q0, prompt)
    ensures r.rest == [] ==> Paused(AfterFeed(r, tx, pos, pushed, cnt), q0, prompt)
  {
    FeedKeeps(r, q0, tx, pos, pushed, cnt);
    var r' := AfterFeed(r, tx, pos, pushed, cnt);
    hide Invariant, Tx.Fed, KeepsUp, Outs, Tx.Balanced;
    if Safe(q0) {
      FeedOnTime(r, q0, tx, pos, pushed, cnt);
      OnTimePaused(r', q0);
    } else if prompt {
      FeedLate(r, q0, tx, pos, pushed, cnt);
    }
  }

  // ---- The other steps ----

  lemma StartConserves(r: Run, q0: seq<Element>)
    requires r == Run(q0, r.tx, 0, [], [], [], 0, [], QueueTraffic(q0)) && AllInitial(q0) && Tx.Untouched(r.tx, 0)
    ensures Conserved(r, QueueTraffic(q0)) && Fifo(r) && Front(r, q0)
  {
    PendingInitially(q0);
    Tx.PendingInitially(r.tx);
    assert q0[..0] == [] && q0[0..] == q0;
    assert QueuePending([]) == [];
  }

  lemma SameAsSelf(q: seq<Element>)
    ensures SameElements(q, q)
  {
    assert forall i :: 0 <= i < |q| ==> SameElement(q[i], q[i]);
  }

  /** Before the first list. */
  lemma Start(q0: seq<Element>, tx: seq<Tx.TxElement>, prompt: bool)
    requires Handed(q0) && Alike(q0, tx) && Tx.Untouched(tx, 0)
    ensures Paused(Run(q0, tx, 0, [], [], [], 0, [], QueueTraffic(q0)), q0, prompt)
  {
    hide Conserved, Fifo, Front, Alike, QueueTraffic, KeepsUp, Overtaken, AllLeft, AllValid, SameElements, Writes, OnlyLastStops;
    var r := Run(q0, tx, 0, [], [], [], 0, [], QueueTraffic(q0));
    StartConserves(r, q0);
    SameAsSelf(q0);
    if FirstRead(q0) < |q0| {
      AheadWrites(q0, q0);
    }
  }

  lemma ExecuteKeeps(r: Run, q0: seq<Element>)
    requires Invariant(r, q0) && r.rest != [] && (r.rest[0].ByteOut? ==> r.cnt > 0)
    ensures Invariant(AfterEvent(r), q0)
  {
    hide AllValid, OnlyLastStops, SameElements, Alike, Tx.Balanced, Tx.PushedBefore, Tx.Untouched, Conserved;
    ExecuteConserves(r, QueueTraffic(q0));
    OutsConcat(r.bus, [r.rest[0]]);
    SameConserved(r.(bus := r.bus + [r.rest[0]], rest := r.rest[1..]), AfterEvent(r), QueueTraffic(q0), r.pos);
  }

  /** The state after the peripheral has put one event on the bus. */
  function AfterEvent(r: Run): Run
    requires r.rest != [] && (r.rest[0].ByteOut? ==> r.cnt > 0)
  {
    r.(bus := r.bus + [r.rest[0]], rest := r.rest[1..], cnt := if r.rest[0].ByteOut? then r.cnt - 1 else r.cnt)
  }

  /** An event on the bus. */
  lemma ExecuteGoing(r: Run, q0: seq<Element>, prompt: bool)
    requires Handed(q0) && Going(r, q0, prompt) && r.rest != [] && (r.rest[0].ByteOut? ==> r.cnt > 0)
    ensures Going(AfterEvent(r), q0, prompt)
  {
    ExecuteKeeps(r, q0);
    hide Invariant, Writes, KeepsUp, QueuePending;
  }

  lemma {:induction false} ServedLeft(w: seq<Element>)
    requires ServedTo(w, 0, |w|) && Writes(w)
    ensures AllLeft(w) == 0
  {
    if w != [] {
      assert Served(w[0]);
      ServedLeft(w[1..]);
    }
  }

  lemma MoveKeeps(r: Run, q0: seq<Element>, k: nat)
    requires Invariant(r, q0) && ServedTo(r.q, r.pos, k) && k < |q0| && q0[k].read && Tx.PushedBefore(r.tx, k)
    ensures Invariant(r.(pos := k), q0)
  {
    hide AllValid, OnlyLastStops, SameElements, Alike, Tx.Balanced, Tx.PushedBefore, Tx.Untouched, Conserved, AllLeft, QueueTraffic;
    MoveConserves(r, QueueTraffic(q0), k);
  }

  lemma MoveInTime(r: Run, q0: seq<Element>, k: nat)
    requires r.pos < |r.q| == |q0| && AllValid(r.q) && ServedTo(r.q, r.pos, k) && k < |q0| && q0[k].read
    ensures OnTime(r, q0) ==> OnTime(r.(pos := k), q0)
  {
    ServedNothing(r.q, r.pos, k);
    hide AllLeft, Served, AllValid;
    assert r.q[..0] == [];
    assert QueuePending([]) == [];
  }

  lemma MoveLate(r: Run, q0: seq<Element>, k: nat)
    requires r.pos < |r.q| == |q0| && AllValid(r.q) && ServedTo(r.q, r.pos, k) && k < |q0| && q0[k].read
    requires Writes(q0[..FirstRead(q0)]) && !KeepsUp(q0[..FirstRead(q0)])
    ensures Late(r, q0) ==> Late(r.(pos := k), q0)
  {
    var f := FirstRead(q0);
    ServedNothing(r.q, r.pos, k);
    hide KeepsUp, Overtaken, QueuePending, QueueTraffic;
    if r.pos == 0 < k && Late(r, q0) {
      assert forall j :: 0 <= j < f ==> Served(r.q[..f][j]);
      ServedLeft(r.q[..f]);
    }
  }

  /** The receive interrupt moves queuePos to a later read. */
  lemma MoveGoing(r: Run, q0: seq<Element>, prompt: bool, k: nat)
    requires Handed(q0) && Going(r, q0, prompt) && r.pos < |q0|
    requires ServedTo(r.q, r.pos, k) && k < |q0| && q0[k].read && Tx.PushedBefore(r.tx, k)
    ensures Going(r.(pos := k), q0, prompt)
  {
    MoveKeeps(r, q0, k);
    MoveInTime(r, q0, k);
    if !Safe(q0) && prompt {
      MoveLate(r, q0, k);
    }
    hide Alike, Conserved, Fifo, Front, KeepsUp, Overtaken, OnTime, Late, Tx.PushedBefore, ServedTo;
  }

  // ---- The transmit interrupt comes when it is needed ----

  /** At the end of a list with the transmit interrupt disabled, as all bytes are pushed,
      serving it would change nothing. */
  lemma IdlePaused(r: Run, q0: seq<Element>, prompt: bool)
    requires Handed(q0) && Going(r, q0, prompt) && r.rest == []
    ensures Paused(r, q0, false)
    ensures Tx.QueuePending(r.tx) == [] ==> Paused(r, q0, prompt)
  {
    var f := FirstRead(q0);
    if Tx.QueuePending(r.tx) == [] && f < |q0| && r.pos == 0 < f {
      assert Alike(q0, r.tx) && Tx.Untouched(r.tx, f);
      assert q0[f].addrReq == r.tx[f].addrReq >= 1;
      Tx.PendingAt(r.tx, f);
    }
    hide Invariant, KeepsUp, Overtaken, Tx.QueuePending;
    OnTimePaused(r, q0);
  }

  lemma OutsWithin(r: Run, total: seq<Event>)
    requires r.pos <= |r.q| && Conserved(r, total)
    ensures Outs(r.bus) + Outs(r.rest) <= Outs(total)
  {
    hide Outs, QueuePending;
    OutsConcat(r.bus + r.rest, QueuePending(r.q[r.pos..]));
    OutsConcat(r.bus, r.rest);
    OutsConcat(r.kept, r.later);
    OutsConcat(r.kept + QueuePending(r.q[..r.pos]), r.later);
    OutsConcat(r.kept, QueuePending(r.q[..r.pos]));
  }

  /** The bus never waits for a byte that does not come. */
  lemma NoStarving(r: Run, q0: seq<Element>)
    requires Invariant(r, q0) && r.rest != [] && r.rest[0].ByteOut? && r.cnt == 0
    ensures Tx.QueuePending(r.tx) != []
  {
    OutsWithin(r, QueueTraffic(q0));
    TrafficBytes(q0, r.tx);
  }

  // ---- The end of a transfer ----

  /** The bus has carried the traffic of the queue without the commands that were still
      missing when the transmit interrupt overtook the writes. */
  predicate Torn(q0: seq<Element>, bus: seq<Event>)
    requires Writes(q0[..FirstRead(q0)]) && !KeepsUp(q0[..FirstRead(q0)])
  {
    var f := FirstRead(q0);
    var front, lost := QueueTraffic(q0[..f]), QueuePending(Overtaken(q0[..f]));
    var n := |front| - |lost|;
    0 <= n < |front| && front[n..] == lost && bus == front[..n] + QueueTraffic(q0[f..])
  }

  /** The bus has carried the traffic, at most with one piece cut out. */
  ghost predicate Cut(total: seq<Event>, bus: seq<Event>) {
    exists kept, lost, later :: IsCut(total, bus, kept, lost, later)
  }

  predicate IsCut(total: seq<Event>, bus: seq<Event>, kept: seq<Event>, lost: seq<Event>, later: seq<Event>) {
    total == kept + lost + later && bus == kept + later
  }

  /** Nothing is pending behind queuePos. */
  predicate Over(r: Run) {
    r.rest == [] && r.pos <= |r.q| && QueuePending(r.q[r.pos..]) == []
  }

  lemma OverCut(r: Run, q0: seq<Element>)
    requires Invariant(r, q0) && Over(r)
    ensures r.bus == r.kept + r.later && Cut(QueueTraffic(q0), r.bus)
  {
    assert r.bus + [] + [] == r.bus;
    assert IsCut(QueueTraffic(q0), r.bus, r.kept, QueuePending(r.q[..r.pos]), r.later);
  }

  lemma OverSafe(r: Run, q0: seq<Element>)
    requires Invariant(r, q0) && Over(r) && InTime(r, q0)
    ensures r.bus == QueueTraffic(q0)
  {
    OverCut(r, q0);
    hide QueueTraffic, Alike, Fifo, KeepsUp;
    assert r.q[..0] == [];
    assert QueuePending([]) == [];
    assert r.kept + [] == r.kept;
  }

  /** All bytes of the queue have been pushed, and the bus has taken all of them. */
  lemma OverBytes(r: Run, q0: seq<Element>)
    requires Invariant(r, q0) && r.bus == QueueTraffic(q0)
    ensures r.pushed == Tx.QueueBytes(r.tx) && r.cnt == 0
  {
    TrafficBytes(q0, r.tx);
    Tx.PushedIsPrefix(r.pushed, Tx.QueuePending(r.tx), Tx.QueueBytes(r.tx));
  }

  /** By then the writes have been overtaken. */
  lemma NotAtStart(r: Run, q0: seq<Element>)
    requires r.pos <= |r.q| == |q0| && AllSent(r.q, r.pos)
    requires FirstRead(q0) < |q0| && Writes(q0[..FirstRead(q0)]) && !KeepsUp(q0[..FirstRead(q0)]) && TooLate(r, q0)
    ensures Late(r, q0) && r.pos > 0
  {
    if r.pos == 0 {
      var w := r.q[..FirstRead(q0)];
      SentLeft(w);
      AfterListShrinks(w, 15);
      assert false;
    }
  }

  lemma BytesPending(m: seq<Element>)
    requires AllLeft(m) > 0
    ensures QueuePending(m) != []
  {
    QueuePendingOuts(m);
  }

  lemma TornBus(q0: seq<Element>, bus: seq<Event>, kept: seq<Event>, f: nat, m: seq<Element>)
    requires f == FirstRead(q0) && Writes(q0[..f]) && !KeepsUp(q0[..f]) && m == Overtaken(q0[..f])
    requires bus == kept + QueueTraffic(q0[f..])
    requires kept + QueuePending(m) + QueueTraffic(q0[f..]) == QueueTraffic(q0)
    ensures Torn(q0, bus)
  {
    hide KeepsUp, QueuePending, Overtaken, QueueTraffic, Writes, AllLeft, FirstRead;
    BytesPending(m);
    SplitTraffic(q0, f);
    TornPieces(QueueTraffic(q0[..f]), kept, QueuePending(m), QueueTraffic(q0[f..]));
  }

  lemma OverTorn(r: Run, q0: seq<Element>)
    requires Invariant(r, q0) && Over(r) && AllSent(r.q, r.pos)
    requires FirstRead(q0) < |q0| && Writes(q0[..FirstRead(q0)]) && !KeepsUp(q0[..FirstRead(q0)]) && TooLate(r, q0)
    ensures Torn(q0, r.bus)
  {
    NotAtStart(r, q0);
    OverCut(r, q0);
    hide KeepsUp, Overtaken, QueuePending, QueueTraffic, Writes, Fifo, Front, Alike, AllValid, OnlyLastStops, SameElements, Cut;
    var f := FirstRead(q0);
    TornBus(q0, r.bus, r.kept, f, Overtaken(q0[..f]));
  }

  lemma TornPieces(front: seq<Event>, kept: seq<Event>, lost: seq<Event>, later: seq<Event>)
    requires front + later == kept + lost + later
    ensures front == kept + lost
    ensures var n := |front| - |lost|; n == |kept| && front[n..] == lost && front[..n] == kept
  {
    assert |front| == |kept + lost|;
    assert front == (front + later)[..|front|] == (kept + lost + later)[..|kept + lost|] == kept + lost;
  }

  // ---- The receive interrupt ----

  /** Of two beginnings of the same traffic, the one with more bytes read is the longer one. */
  lemma ReadsAhead(a: seq<Event>, x: seq<Event>, b: seq<Event>, y: seq<Event>)
    requires a + x == b + y && Ins(a) > Ins(b)
    ensures b <= a && Outs(a) >= Outs(b)
  {
    hide Ins, Outs;
    if |a| <= |b| {
      assert b[..|a|] == (b + y)[..|a|] == (a + x)[..|a|] == a;
      assert b == a + b[|a|..];
      InsConcat(a, b[|a|..]);
      assert false;
    }
    assert a[..|b|] == (a + x)[..|b|] == (b + y)[..|b|] == b;
    OutsConcat(b, a[|b|..]);
    assert a == b + a[|b|..];
  }

  /** Nothing was cut out so far. */
  predicate Whole(r: Run) {
    r.pos <= |r.q| && QueuePending(r.q[..r.pos]) == []
  }

  lemma WholeTotal(r: Run, total: seq<Event>)
    requires Whole(r) && Conserved(r, total)
    ensures r.bus + r.rest + QueuePending(r.q[r.pos..]) == total
  {
    hide QueuePending;
    assert r.kept + [] == r.kept;
  }

  lemma InitialPending(r: Run, q0: seq<Element>, k: nat)
    requires Invariant(r, q0) && AllInitial(q0) && r.pos < k <= |q0| && !r.q[k - 1].stopCmdSent
    ensures QueuePending(r.q[k..]) == QueueTraffic(q0[k..])
  {
    assert forall e <- r.q[k..] :: e.Initial();
    PendingInitially(r.q[k..]);
    RestOfTraffic(q0, r.q, k);
  }

  /** The elements behind one that is not done have not been begun. */
  lemma NotBegun(r: Run, q0: seq<Element>, k: nat)
    requires Invariant(r, q0) && AllInitial(q0) && r.pos < k <= |q0| && !r.q[k - 1].stopCmdSent
    ensures QueuePending(r.q[r.pos..]) == QueuePending(r.q[r.pos..k]) + QueueTraffic(q0[k..])
  {
    InitialPending(r, q0, k);
    assert |r.q| == |q0|;
    hide *;
    Split(r.q, r.pos, k);
    PendingConcat(r.q[r.pos..k], r.q[k..]);
  }

  lemma InsFront(q0: seq<Element>, i: nat, k: nat)
    requires i <= k <= |q0|
    ensures Ins(QueueTraffic(q0[..i])) <= Ins(QueueTraffic(q0[..k]))
  {
    Split(q0, i, k);
    TrafficConcat(q0[..i], q0[i..k]);
    InsConcat(QueueTraffic(q0[..i]), QueueTraffic(q0[i..k]));
  }

  /** The commands of the elements in front of a byte that was read have been issued. */
  lemma ReadIsServed(r: Run, q0: seq<Element>, k: nat, i: nat)
    requires Invariant(r, q0) && AllInitial(q0) && Whole(r)
    requires k <= |q0| && Ins(r.bus) > Ins(QueueTraffic(q0[..k])) && r.pos <= i < k
    ensures i < |r.q| && r.q[i].stopCmdSent
  {
    hide QueuePending, QueueTraffic, Ins, AllInitial, Fifo, Front, Ordered, Alike, Conserved, AllValid, OnlyLastStops, SameElement;
    if !r.q[i].stopCmdSent {
      NotBegun(r, q0, i + 1);
      WholeTotal(r, QueueTraffic(q0));
      SplitTraffic(q0, i + 1);
      InsFront(q0, i + 1, k);
      InsPieces(r.bus, r.rest, QueuePending(r.q[r.pos..i + 1]), QueueTraffic(q0[i + 1..]), QueueTraffic(q0[..i + 1]));
      assert false;
    }
  }

  lemma InsPieces(bus: seq<Event>, rest: seq<Event>, ahead: seq<Event>, behind: seq<Event>, front: seq<Event>)
    requires bus + rest + (ahead + behind) == front + behind
    ensures Ins(bus) <= Ins(front)
  {
    hide Ins;
    InsConcat(bus + rest, ahead + behind);
    InsConcat(bus, rest);
    InsConcat(ahead, behind);
    InsConcat(front, behind);
  }

  lemma {:induction false} SameTraffic(a: seq<Element>, b: seq<Element>)
    requires SameElements(a, b)
    ensures QueueTraffic(a) == QueueTraffic(b)
  {
    if a != [] {
      assert SameElement(a[0], b[0]);
      assert SameElements(a[1..], b[1..]) by {
        assert forall i :: 0 <= i < |a| - 1 ==> a[1..][i] == a[i + 1] && b[1..][i] == b[i + 1];
      }
      SameTraffic(a[1..], b[1..]);
    }
  }

  lemma RestOfTraffic(q0: seq<Element>, q: seq<Element>, k: nat)
    requires SameElements(q0, q) && k <= |q0|
    ensures QueueTraffic(q[k..]) == QueueTraffic(q0[k..])
  {
    assert forall i :: 0 <= i < |q0| - k ==> q[k..][i] == q[k + i] && q0[k..][i] == q0[k + i];
    SameTraffic(q0[k..], q[k..]);
  }

  /** Their bytes have been pushed. */
  lemma ReadIsPushed(r: Run, q0: seq<Element>, k: nat, i: nat)
    requires Invariant(r, q0) && Whole(r)
    requires k <= |q0| && Ins(r.bus) > Ins(QueueTraffic(q0[..k])) && i < k
    ensures Tx.Pending(r.tx[i]) == []
  {
    if Tx.Pending(r.tx[i]) != [] {
      WholeTotal(r, QueueTraffic(q0));
      FrontBytes(q0, r.tx, k);
      Assoc(r.bus, r.rest, QueuePending(r.q[r.pos..]));
      ReadsAhead(r.bus, r.rest + QueuePending(r.q[r.pos..]), QueueTraffic(q0[..k]), QueueTraffic(q0[k..]));
      Tx.PushedLess(r.tx, r.pushed, i, k);
      assert false;
    }
  }

  /** When the byte that has been read last does not belong to one of the first k elements, all
      of these have had their commands and pushed their bytes, so queuePos may move over them. */
  lemma Received(r: Run, q0: seq<Element>, k: nat)
    requires Invariant(r, q0) && AllInitial(q0) && Whole(r)
    requires r.pos <= k <= |q0| && Ins(r.bus) > Ins(QueueTraffic(q0[..k]))
    ensures ServedTo(r.q, r.pos, k) && Tx.PushedBefore(r.tx, k)
  {
    forall i | r.pos <= i < k ensures Served(r.q[i]) {
      ReadIsServed(r, q0, k, i);
      assert r.q[i].Valid();
    }
    forall i | 0 <= i < k ensures Tx.Pending(r.tx[i]) == [] {
      ReadIsPushed(r, q0, k, i);
    }
  }

  /** The element that the n-th byte read belongs to. */
  function Reading(q: seq<Element>, n: nat): (k: nat)
    ensures k <= |q|
  {
    if q == [] || (q[0].read && n <= q[0].length) then 0
    else 1 + Reading(q[1..], if q[0].read then n - q[0].length else n)
  }

  lemma {:induction false} InsRepeat(e: Event, n: nat)
    ensures Ins(Repeat(e, n)) == if e.ByteIn? then n else 0
  {
    if n > 0 {
      assert Repeat(e, n)[1..] == Repeat(e, n - 1);
      InsRepeat(e, n - 1);
    }
  }

  lemma InsElement(e: Element)
    ensures Ins(Traffic(e)) == if e.read then e.length else 0
  {
    var data := DataEvents(e.read, e.length);
    InsRepeat(ByteOut(true), e.addrReq);
    if !e.read {
      InsRepeat(ByteOut(true), e.length);
    } else if e.length > 0 {
      InsRepeat(ByteIn(false), e.length - 1);
      InsConcat(Repeat(ByteIn(false), e.length - 1), [ByteIn(true)]);
    }
    InsConcat([StartBit] + Repeat(ByteOut(true), e.addrReq) + data, if e.stop then [StopBit] else []);
    InsConcat([StartBit] + Repeat(ByteOut(true), e.addrReq), data);
    InsConcat([StartBit], Repeat(ByteOut(true), e.addrReq));
  }

  /** The n-th byte read is one of element k: the elements in front of k bring fewer bytes, and
      those up to and with k at least n. */
  predicate BringsByte(q: seq<Element>, k: nat, n: nat) {
    k < |q| && q[k].read && Ins(QueueTraffic(q[..k])) < n <= Ins(QueueTraffic(q[..k + 1]))
  }

  lemma InsUpTo(q: seq<Element>, k: nat)
    requires 0 < k <= |q|
    ensures Ins(QueueTraffic(q[..k])) == (if q[0].read then q[0].length else 0) + Ins(QueueTraffic(q[1..][..k - 1]))
  {
    hide Ins, Traffic;
    assert q[..k][1..] == q[1..][..k - 1] && q[..k][0] == q[0];
    InsElement(q[0]);
    InsConcat(Traffic(q[0]), QueueTraffic(q[1..][..k - 1]));
  }

  lemma BringsIt(q: seq<Element>, k: nat, n: nat)
    requires BringsByte(q, k, n)
    ensures k < |q| && q[k].read && Ins(QueueTraffic(q[..k])) < n
  {
  }

  /** No other element brings that byte. */
  lemma BringsOnce(q: seq<Element>, k: nat, l: nat, n: nat)
    requires BringsByte(q, k, n) && BringsByte(q, l, n)
    ensures k == l
  {
    if k < l {
      InsGrow(q, k + 1, l);
    } else if l < k {
      InsGrow(q, l + 1, k);
    }
  }

  lemma InsGrow(q: seq<Element>, i: nat, k: nat)
    requires i <= k <= |q|
    ensures Ins(QueueTraffic(q[..i])) <= Ins(QueueTraffic(q[..k]))
  {
    hide Ins, QueueTraffic;
    assert q[..k][..i] == q[..i];
    SplitTraffic(q[..k], i);
    InsConcat(QueueTraffic(q[..i]), QueueTraffic(q[..k][i..]));
  }

  lemma {:induction false} ReadingBehind(q: seq<Element>, n: nat)
    requires n > 0
    ensures var k := Reading(q, n);
            if k < |q| then BringsByte(q, k, n) else Ins(QueueTraffic(q)) < n
  {
    var k := Reading(q, n);
    hide QueueTraffic, Ins;
    NoIns();
    if q != [] {
      if k > 0 {
        ReadingBehind(q[1..], if q[0].read then n - q[0].length else n);
        InsUpTo(q, k);
        assert q[..|q|] == q && q[1..][..|q| - 1] == q[1..];
      }
      if k < |q| {
        InsUpTo(q, k + 1);
        assert q[..0] == [] && q[1..][..0] == [];
      }
    }
  }

  lemma NoIns()
    ensures Ins(QueueTraffic([])) == 0
  {
  }

  lemma SafeWhole(r: Run, q0: seq<Element>)
    requires Invariant(r, q0) && OnTime(r, q0)
    ensures Whole(r)
  {
    assert r.q[..0] == [];
    assert QueuePending([]) == [];
  }

  lemma InsWithin(r: Run, q0: seq<Element>)
    requires Invariant(r, q0) && Whole(r)
    ensures Ins(r.bus) <= Ins(QueueTraffic(q0))
  {
    hide QueuePending, Ins, QueueTraffic, Fifo, Front, Ordered, Alike, AllValid, OnlyLastStops, SameElements;
    var pending := QueuePending(r.q[r.pos..]);
    WholeTotal(r, QueueTraffic(q0));
    InsConcat(r.bus + r.rest, pending);
    InsConcat(r.bus, r.rest);
  }

  /** While nothing was cut out, the receive interrupt may always move queuePos to the read that
      the last byte belongs to. */
  lemma {:induction false} ReceiveMoves(r: Run, q0: seq<Element>, k: nat)
    requires Invariant(r, q0) && AllInitial(q0) && Whole(r) && Ins(r.bus) > 0 && k == Reading(q0, Ins(r.bus))
    ensures BringsByte(q0, k, Ins(r.bus)) && (r.pos <= k ==> ServedTo(r.q, r.pos, k) && Tx.PushedBefore(r.tx, k))
  {
    hide *;
    ReadingBehind(q0, Ins(r.bus));
    InsWithin(r, q0);
    if r.pos <= k {
      BringsIt(q0, k, Ins(r.bus));
      Received(r, q0, k);
    }
  }

  // ---- Lists and interrupts, as the driver goes through them ----

  lemma PausedFacts(r: Run, q0: seq<Element>, prompt: bool)
    requires Handed(q0) && Paused(r, q0, prompt)
    ensures r.pos < |r.q| == |q0| && r.rest == [] && OnlyLastStops(r.q)
  {
  }

  /** The first n slots hold a list that is ready to be executed; what is left of the queue. */
  predicate Launched(q: seq<Element>, pos: nat, slots: seq<Command>, n: nat) {
    && n <= |slots| && Terminated(slots[..n]) && Executed(slots) == Events(slots[..n])
    && pos < |q| && if Stops(slots[..n]) then AllSent(q, pos) else Ready(q)
  }

  /** The peripheral is started with a filled list, which stands in front of slots that are
      not used. */
  lemma StartGoing(r: Run, q0: seq<Element>, prompt: bool, q': seq<Element>, slots: seq<Command>, n: nat)
    requires Handed(q0) && Paused(r, q0, prompt) && Ready(r.q) && OnlyLastStops(q') && n <= |slots|
    requires Filled(r.q, q', r.pos, slots[..n])
    ensures Going(r.(q := q', rest := Executed(slots)), q0, prompt)
    ensures Launched(q', r.pos, slots, n) && QueueWork(q') < QueueWork(r.q)
  {
    hide Paused, Going, Handed, Filled, Ready, Terminated, Stops, Executed, Events, QueueWork, OnlyLastStops, AllSent;
    PausedFacts(r, q0, prompt);
    ListEnds(r.q, q', r.pos, slots[..n]);
    ListEventsAppend([], slots[..n], slots[n..]);
    assert slots == slots[..n] + slots[n..];
    FillGoing(r, q0, prompt, q', slots[..n]);
    SameSize(r.q, q', r.pos, slots[..n]);
  }

  lemma SameSize(q: seq<Element>, q': seq<Element>, from: nat, cs: seq<Command>)
    requires Filled(q, q', from, cs)
    ensures |q'| == |q|
  {
  }

  /** One more list was issued, and its events are to come; it ends the transfer iff it stops. */
  predicate Started(before: seq<seq<Command>>, lists: seq<seq<Command>>, rest: seq<Event>, stopped: bool) {
    && |lists| == |before| + 1 && lists[..|before|] == before
    && Terminated(lists[|before|]) && (Stops(lists[|before|]) <==> stopped) && rest == Events(lists[|before|])
  }

  /** The state of the FIFO is one the transmit interrupt can start from. */
  lemma GoingFacts(r: Run, q0: seq<Element>, prompt: bool)
    requires Handed(q0) && Going(r, q0, prompt)
    ensures r.pos <= |r.q| == |q0| && Tx.PushedBefore(r.tx, r.pos)
    ensures Tx.Balanced(r.pushed, r.tx, Tx.QueueBytes(r.tx)) && |r.pushed| == Outs(r.bus) + r.cnt
    ensures r.rest != [] && r.rest[0].ByteOut? && r.cnt == 0 ==> Tx.QueuePending(r.tx) != []
  {
    if r.rest != [] && r.rest[0].ByteOut? && r.cnt == 0 {
      NoStarving(r, q0);
    }
  }

  lemma FedRun(r: Run, q0: seq<Element>, prompt: bool, tx: seq<Tx.TxElement>, pos: nat, pushed: seq<byte>, cnt: nat)
    returns (r': Run)
    requires Handed(q0) && Going(r, q0, prompt) && Tx.Fed(r.tx, tx, r.pos, pos, Outs(r.bus))
    requires Tx.Balanced(pushed, tx, Tx.QueueBytes(r.tx)) && |pushed| == Outs(r.bus) + cnt
    requires cnt >= Tx.FIFO_FULL || Tx.QueuePending(tx) == []
    ensures r' == Run(r.q, tx, pos, r.bus, r.rest, pushed, cnt, r'.kept, r'.later) && r.pos <= pos
    ensures Going(r', q0, prompt) && (r.rest == [] ==> Paused(r', q0, prompt))
    ensures r.rest != [] && r.rest[0].ByteOut? ==> cnt > 0
  {
    hide Going, Paused, Handed, Tx.QueuePending, Tx.QueueBytes, Tx.PushedBefore, Tx.Balanced, Outs, QueuePending;
    FeedGoing(r, q0, prompt, tx, pos, pushed, cnt);
    r' := AfterFeed(r, tx, pos, pushed, cnt);
    GoingFacts(r', q0, prompt);
  }

  lemma {:induction false} SameReading(a: seq<Element>, b: seq<Element>, n: nat)
    requires SameElements(a, b)
    ensures Reading(a, n) == Reading(b, n)
  {
    if a != [] {
      assert SameElement(a[0], b[0]);
      if !(a[0].read && n <= a[0].length) {
        assert SameElements(a[1..], b[1..]) by {
          assert forall i :: 0 <= i < |a| - 1 ==> a[1..][i] == a[i + 1] && b[1..][i] == b[i + 1];
        }
        SameReading(a[1..], b[1..], if a[0].read then n - a[0].length else n);
      }
    }
  }

  lemma AlikeNow(r: Run, q0: seq<Element>)
    requires SameElements(q0, r.q) && Alike(q0, r.tx)
    ensures Alike(r.q, r.tx)
  {
    assert forall i :: 0 <= i < |q0| ==> SameElement(q0[i], r.q[i]);
  }

  lemma MayMove(r: Run, k: nat)
    requires r.pos <= k && ServedTo(r.q, r.pos, k) && Tx.PushedBefore(r.tx, k)
    ensures Tx.PushedFrom(r.tx, r.pos, k)
  {
  }

  /** Where the receive interrupt moves queuePos, and that it can while nothing is lost. */
  lemma GoingReads(r: Run, q0: seq<Element>, prompt: bool, k: nat)
    requires Handed(q0) && Going(r, q0, prompt) && Ins(r.bus) > 0 && k == Reading(r.q, Ins(r.bus))
    ensures k == Reading(q0, Ins(r.bus)) && |r.q| == |q0| && Alike(r.q, r.tx)
    ensures k < |q0| || Safe(q0) ==> BringsByte(q0, k, Ins(r.bus)) && k < |q0|
    ensures Safe(q0) && r.pos <= k ==> ServedTo(r.q, r.pos, k) && Tx.PushedFrom(r.tx, r.pos, k)
  {
    hide Reading, QueueTraffic, KeepsUp, ServedTo, Conserved, Fifo, Front, Ordered, AllValid, OnlyLastStops, Alike, OnTime, Late;
    hide SameElement, Tx.PushedBefore, Tx.PushedFrom, Whole, AllInitial, QueuePending, Writes, Ins, BringsByte;
    SameReading(q0, r.q, Ins(r.bus));
    ReadingBehind(q0, Ins(r.bus));
    AlikeNow(r, q0);
    if Safe(q0) {
      SafeWhole(r, q0);
      ReceiveMoves(r, q0, k);
      BringsIt(q0, k, Ins(r.bus));
      if r.pos <= k {
        MayMove(r, k);
      }
    }
  }

  lemma MoveReads(r: Run, q0: seq<Element>, prompt: bool, k: nat)
    requires Handed(q0) && Going(r, q0, prompt) && Ins(r.bus) > 0 && k == Reading(q0, Ins(r.bus))
    requires r.pos <= k < |q0| && ServedTo(r.q, r.pos, k) && Tx.PushedFrom(r.tx, r.pos, k)
    ensures Going(r.(pos := k), q0, prompt)
  {
    hide Safe, OnTime, Late, Reading, Conserved, Front, Ordered, ServedTo, Tx.Pending, Tx.Balanced, BringsByte;
    ReadingBehind(q0, Ins(r.bus));
    BringsIt(q0, k, Ins(r.bus));
    assert Tx.PushedBefore(r.tx, k);
    MoveGoing(r, q0, prompt, k);
  }

  /** The last list that was issued stands in the slots. */
  predicate InSlots(lists: seq<seq<Command>>, slots: seq<Command>) {
    lists != [] && lists[|lists| - 1] <= slots
  }

  lemma StartedIssued(before: seq<seq<Command>>, lists: seq<seq<Command>>, rest: seq<Event>, stopped: bool)
    requires Started(before, lists, rest, stopped) && Issued(before, false)
    ensures Issued(lists, stopped) && ListEvents(lists) == ListEvents(before) + rest
  {
    hide Terminated, Stops, Events, Executed;
    var cs := lists[|before|];
    assert lists == before + [cs];
    IssuedAppend(before, cs);
    ListEventsAppend(before, cs, []);
  }

  lemma AllSentFrom(q: seq<Element>, i: nat, k: nat)
    requires i <= k
    ensures AllSent(q, i) ==> AllSent(q, k)
  {
  }

  lemma NothingIssued()
    ensures Issued([], false) && ListEvents([]) == []
  {
  }

  // ---- After the last list ----

  /** Commands were lost, as Torn says. */
  predicate Lossy(q0: seq<Element>, bus: seq<Event>)
    requires AllValid(q0) && OnlyLastStops(q0) && !Safe(q0)
  {
    bus != QueueTraffic(q0) && Torn(q0, bus)
  }

  lemma TornDiffers(q0: seq<Element>, bus: seq<Event>)
    requires Writes(q0[..FirstRead(q0)]) && !KeepsUp(q0[..FirstRead(q0)]) && Torn(q0, bus)
    ensures bus != QueueTraffic(q0)
  {
    SplitTraffic(q0, FirstRead(q0));
  }

  lemma OverNow(r: Run, q0: seq<Element>)
    requires Invariant(r, q0) && r.rest == [] && AllSent(r.q, r.pos)
    ensures Over(r)
  {
    PendingSkip(r.q, r.pos, |r.q|);
    assert r.q[|r.q|..] == [];
    assert QueuePending([]) == [];
  }

  lemma FifoBytes(r: Run, q0: seq<Element>)
    requires Invariant(r, q0)
    ensures r.pushed <= Tx.QueueBytes(r.tx) && Outs(r.bus) <= |r.pushed|
  {
    Tx.PushedIsPrefix(r.pushed, Tx.QueuePending(r.tx), Tx.QueueBytes(r.tx));
  }

  /** What a transfer leaves behind when its last list has been executed. */
  lemma TransferEnds(r: Run, q0: seq<Element>, prompt: bool, t0: seq<Tx.TxElement>)
    requires Handed(q0) && Paused(r, q0, prompt) && AllSent(r.q, r.pos) && Tx.QueueBytes(r.tx) == Tx.QueueBytes(t0)
    ensures Cut(QueueTraffic(q0), r.bus)
    ensures r.pushed <= Tx.QueueBytes(t0) && Outs(r.bus) <= |r.pushed|
    ensures Safe(q0) ==> r.bus == QueueTraffic(q0) && r.pushed == Tx.QueueBytes(t0)
    ensures !Safe(q0) && prompt ==> Lossy(q0, r.bus)
  {
    hide Invariant, AllSent, Cut, Over, Torn, KeepsUp, QueueTraffic, InTime, TooLate;
    OverNow(r, q0);
    OverCut(r, q0);
    FifoBytes(r, q0);
    if Safe(q0) {
      OverSafe(r, q0);
      OverBytes(r, q0);
    } else if prompt {
      OverTorn(r, q0);
      TornDiffers(q0, r.bus);
    }
  }

  lemma LossyTorn(q0: seq<Element>, bus: seq<Event>)
    requires Handed(q0) && !Safe(q0) && Lossy(q0, bus)
    ensures var f := FirstRead(q0); f < |q0| && Writes(q0[..f]) && !KeepsUp(q0[..f]) && Torn(q0, bus)
  {
  }
}
