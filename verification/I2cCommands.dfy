/** The 16-slot command list of the I2C peripheral, what the hardware does with it,
    and the bus traffic that a transaction queue stands for.

    A list is compared with a queue byte by byte: every command is replaced by the bus
    events it causes, so that a zero-byte command means nothing and two adjacent blocks
    mean the same as one block with the sum of their sizes. */
module I2cCommands {
  import opened Sequences

  const SLOTS := 16
  const MAX_BLOCK := 255

  datatype Op = RStart | Write | Read | Stop | End

  datatype Command = Command(op: Op, bytes: nat, ackVal: bool, ackExp: bool, ackCheck: bool) {
    /** Moves data bytes. */
    predicate IsBlock() { op == Write || op == Read }

    /** The byte count fits its 8-bit field, only blocks have one, only WRITE checks the
        acknowledge bit, and the expected acknowledge is always low. */
    predicate WellFormed() {
      && bytes <= MAX_BLOCK
      && (!IsBlock() ==> bytes == 0)
      && (ackCheck <==> op == Write)
      && (ackVal ==> op == Read)
      && !ackExp
    }
  }

  /** What can be seen on the bus. A read byte is answered with ACK or NAK by the master. */
  datatype Event = StartBit | ByteOut(checked: bool) | ByteIn(nak: bool) | StopBit

  function Repeat(e: Event, n: nat): (r: seq<Event>)
    ensures |r| == n
  {
    seq(n, _ => e)
  }

  function CommandEvents(c: Command): seq<Event> {
    match c.op
    case RStart => [StartBit]
    case Write => Repeat(ByteOut(c.ackCheck), c.bytes)
    case Read => Repeat(ByteIn(c.ackVal), c.bytes)
    case Stop => [StopBit]
    case End => []
  }

  /** The events of all the commands of a list, one after the other. */
  function Events(cs: seq<Command>): seq<Event> {
    if cs == [] then [] else Events(cs[..|cs| - 1]) + CommandEvents(cs[|cs| - 1])
  }

  lemma EventsAppend(cs: seq<Command>, c: Command)
    ensures Events(cs + [c]) == Events(cs) + CommandEvents(c)
  {
  }

  lemma EventsSingle(c: Command)
    ensures Events([c]) == CommandEvents(c)
  {
  }

  lemma {:induction false} EventsConcat(a: seq<Command>, b: seq<Command>)
    ensures Events(a + b) == Events(a) + Events(b)
  {
    if b == [] {
      assert a + b == a;
    } else {
      hide CommandEvents;
      var front, last := b[..|b| - 1], b[|b| - 1];
      assert a + b == (a + front) + [last];
      EventsAppend(a + front, last);
      EventsConcat(a, front);
      Assoc(Events(a), Events(front), CommandEvents(last));
    }
  }

  /** The peripheral takes the commands from slot 0 on. It pauses at END and is finished
      after STOP; whatever stands behind is ignored. */
  function Executed(cs: seq<Command>): seq<Event> {
    if cs == [] || cs[0].op == End then []
    else if cs[0].op == Stop then [StopBit]
    else CommandEvents(cs[0]) + Executed(cs[1..])
  }

  /** RSTART, WRITE and READ commands only, every RSTART followed by the WRITE of an address. */
  predicate Body(cs: seq<Command>) {
    && (forall c <- cs :: c.WellFormed() && c.op != Stop && c.op != End)
    && (forall i :: 0 <= i < |cs| && cs[i].op == RStart ==> i + 1 < |cs| && cs[i + 1].op == Write)
  }

  /** A list the hardware may be started with: a body closed by STOP in one of the slots
      0 to 14, or a body of slots 0 to 14 with END in slot 15 (and then possibly STOP in
      slot 14, which makes END unreachable). */
  predicate Terminated(cs: seq<Command>) {
    && 0 < |cs| <= SLOTS
    && (forall c <- cs :: c.WellFormed())
    && if |cs| < SLOTS then
         cs[|cs| - 1].op == Stop && Body(cs[..|cs| - 1])
       else
         cs[15].op == End && (Body(cs[..15]) || (cs[14].op == Stop && Body(cs[..14])))
  }

  /** The list contains STOP: the transaction ends with it. */
  predicate Stops(cs: seq<Command>) {
    exists c <- cs :: c.op == Stop
  }

  /** Slot 15 holds nothing but END, and RSTART never stands directly before END. Byte counts
      fit eight bits, and a command that moves no data has none. */
  lemma TerminatedShape(cs: seq<Command>)
    requires Terminated(cs)
    ensures forall c <- cs :: c.bytes <= 255 && (c.op != Write && c.op != Read ==> c.bytes == 0)
    ensures forall c <- cs :: (c.ackCheck <==> c.op == Write) && (c.ackVal ==> c.op == Read) && !c.ackExp
    ensures forall i :: 0 <= i < |cs| && cs[i].op == End ==> i == 15
    ensures |cs| == SLOTS ==> cs[15].op == End
    ensures forall i :: 0 <= i && i + 1 < |cs| && cs[i].op == RStart ==> cs[i + 1].op == Write
    ensures forall i :: 0 <= i < |cs| && cs[i].op == Stop ==> i == |cs| - 1 || (i == 14 && |cs| == SLOTS)
  {
    if |cs| < SLOTS {
      var b := cs[..|cs| - 1];
      assert forall i :: 0 <= i < |b| ==> b[i] == cs[i] && b[i] in b;
    } else if Body(cs[..15]) {
      var b := cs[..15];
      assert forall i :: 0 <= i < 15 ==> b[i] == cs[i] && b[i] in b;
    } else {
      var b := cs[..14];
      assert forall i :: 0 <= i < 14 ==> b[i] == cs[i] && b[i] in b;
    }
  }

  lemma {:induction false} ExecutedBody(body: seq<Command>, rest: seq<Command>)
    requires forall c <- body :: c.op != Stop && c.op != End
    ensures Executed(body + rest) == Events(body) + Executed(rest)
  {
    if body == [] {
      assert body + rest == rest;
    } else {
      hide CommandEvents, Events;
      var c, tail := body[0], body[1..];
      assert (body + rest)[1..] == tail + rest;
      ExecutedBody(tail, rest);
      assert body == [c] + tail;
      EventsConcat([c], tail);
      EventsSingle(c);
      Assoc(CommandEvents(c), Events(tail), Executed(rest));
    }
  }

  lemma ExecutedClosed(body: seq<Command>, last: Command, rest: seq<Command>)
    requires forall c <- body :: c.op != Stop && c.op != End
    requires last.op == Stop || last.op == End
    ensures Executed(body + [last] + rest) == Events(body + [last])
  {
    ExecutedBody(body, [last] + rest);
    assert body + [last] + rest == body + ([last] + rest);
    EventsAppend(body, last);
  }

  lemma ExecutedStopEnd(body: seq<Command>, stop: Command, end: Command, rest: seq<Command>)
    requires forall c <- body :: c.op != Stop && c.op != End
    requires stop.op == Stop && end.op == End
    ensures Executed(body + [stop, end] + rest) == Events(body + [stop, end])
  {
    assert body + [stop, end] + rest == body + [stop] + ([end] + rest);
    ExecutedClosed(body, stop, [end] + rest);
    assert body + [stop, end] == (body + [stop]) + [end];
    EventsAppend(body + [stop], end);
  }

  /** Started with a terminated list, whatever the unused slots behind it hold, the hardware
      produces exactly the events of its commands. */
  lemma ExecutedTerminated(cs: seq<Command>, stale: seq<Command>)
    requires Terminated(cs)
    ensures Executed(cs + stale) == Events(cs)
  {
    var n := |cs|;
    if n < SLOTS || Body(cs[..15]) {
      assert cs == cs[..n - 1] + [cs[n - 1]];
      ExecutedClosed(cs[..n - 1], cs[n - 1], stale);
    } else {
      assert cs == cs[..14] + [cs[14], cs[15]];
      ExecutedStopEnd(cs[..14], cs[14], cs[15], stale);
    }
  }

  /** What a number of lists do, one after the other. */
  function ListEvents(lists: seq<seq<Command>>): seq<Event> {
    if lists == [] then [] else ListEvents(lists[..|lists| - 1]) + Executed(lists[|lists| - 1])
  }

  lemma ListEventsAppend(lists: seq<seq<Command>>, cs: seq<Command>, stale: seq<Command>)
    requires Terminated(cs)
    ensures ListEvents(lists + [cs]) == ListEvents(lists) + Events(cs)
    ensures Executed(cs + stale) == Events(cs)
  {
    ExecutedTerminated(cs, stale);
    ExecutedTerminated(cs, []);
    hide Executed, Events, Terminated;
    assert cs + [] == cs && (lists + [cs])[..|lists|] == lists;
  }

  // ---- The stretch rewrite ----

  /** Index of the last READ or WRITE, or -1. */
  function LastBlock(cs: seq<Command>): (p: int)
    ensures -1 <= p < |cs|
    ensures p >= 0 ==> cs[p].IsBlock()
    ensures forall i :: p < i < |cs| ==> !cs[i].IsBlock()
  {
    if cs == [] then -1
    else if cs[|cs| - 1].IsBlock() then |cs| - 1
    else LastBlock(cs[..|cs| - 1])
  }

  /** The list with the last block split into a zero-byte block and itself. Without any
      block the first command ends up doubled. */
  function Stretched(cs: seq<Command>): seq<Command>
    requires cs != []
  {
    var p := LastBlock(cs);
    if p >= 0 then cs[..p] + [cs[p].(bytes := 0)] + cs[p..] else [cs[0]] + cs
  }

  lemma StretchedAt(cs: seq<Command>, p: nat, t: seq<Command>)
    requires p < |cs| && |t| == |cs| + 1
    requires forall k :: p < k < |cs| ==> !cs[k].IsBlock()
    requires forall k :: 0 <= k < p ==> t[k] == cs[k]
    requires forall k :: p < k < |t| ==> t[k] == cs[k - 1]
    requires if cs[p].IsBlock() then t[p] == cs[p].(bytes := 0) else p == 0 && t[0] == cs[0]
    ensures t == Stretched(cs)
  {
  }

  lemma EventsInsertEmpty(a: seq<Command>, dummy: Command, b: seq<Command>)
    requires CommandEvents(dummy) == []
    ensures Events(a + [dummy] + b) == Events(a + b)
  {
    EventsConcat(a + [dummy], b);
    EventsAppend(a, dummy);
    EventsConcat(a, b);
  }

  /** Stretching adds one command and keeps the meaning, iff there is a block to stretch
      or the doubled command means nothing. */
  lemma StretchedEvents(cs: seq<Command>)
    requires cs != []
    ensures |Stretched(cs)| == |cs| + 1
    ensures Events(Stretched(cs)) == Events(cs) <==> (LastBlock(cs) >= 0 || cs[0].op == End)
  {
    var p := LastBlock(cs);
    if p >= 0 {
      hide Events;
      EventsInsertEmpty(cs[..p], cs[p].(bytes := 0), cs[p..]);
      assert cs == cs[..p] + cs[p..];
    } else {
      EventsConcat([cs[0]], cs);
      EventsSingle(cs[0]);
      assert !cs[0].IsBlock();
    }
  }

  lemma StretchedBody(cs: seq<Command>)
    requires Body(cs) && LastBlock(cs) >= 0
    ensures Body(Stretched(cs))
  {
  }

  // ---- What a queue element means ----

  /** The control record of one queue element, as far as commands are concerned. */
  datatype Element = Element(
    read: bool, stop: bool, length: nat, addrReq: nat,
    startCmdSent: bool, addrCmdSent: bool, dataCmdSent: bool, stopCmdSent: bool,
    cmdBytesNeeded: nat)
  {
    /** The states in which the driver can leave an element. */
    predicate Valid() {
      && cmdBytesNeeded <= length
      && addrCmdSent == startCmdSent
      && (!addrCmdSent ==> 1 <= addrReq <= 2)
      && (stopCmdSent ==> addrCmdSent && dataCmdSent && cmdBytesNeeded == 0)
    }

    /** As queued: nothing sent yet. */
    predicate Initial() {
      && !startCmdSent && !addrCmdSent && !dataCmdSent && !stopCmdSent
      && cmdBytesNeeded == length && 1 <= addrReq <= 2
    }
  }

  /** The transfer of n data bytes. On a read the master acknowledges every byte but the
      last one, which it answers with NAK (UM10204, section 3.1.6). */
  function DataEvents(read: bool, n: nat): seq<Event> {
    if !read then Repeat(ByteOut(true), n)
    else if n == 0 then []
    else Repeat(ByteIn(false), n - 1) + [ByteIn(true)]
  }

  /** How much is left to be done for an element. */
  function Work(e: Element): nat {
    (if e.startCmdSent then 0 else 1) + (if e.addrCmdSent then 0 else 1)
    + e.cmdBytesNeeded + (if e.stopCmdSent then 0 else 1)
  }

  function QueueWork(q: seq<Element>): nat {
    if q == [] then 0 else Work(q[0]) + QueueWork(q[1..])
  }

  lemma {:induction false} WorkUpdate(q: seq<Element>, k: nat, e: Element)
    requires k < |q|
    ensures QueueWork(q[k := e]) == QueueWork(q) - Work(q[k]) + Work(e)
  {
    if k > 0 {
      assert q[k := e][1..] == q[1..][k - 1 := e];
      WorkUpdate(q[1..], k - 1, e);
    } else {
      assert q[k := e][1..] == q[1..];
    }
  }

  /** The complete bus traffic of one element. */
  function Traffic(e: Element): seq<Event> {
    [StartBit] + Repeat(ByteOut(true), e.addrReq) + DataEvents(e.read, e.length)
    + if e.stop then [StopBit] else []
  }

  /** START, the address, then the payload: a write with every acknowledge checked, a read with
      ACK for all bytes but the last one. STOP comes last, if it is wanted. */
  lemma TrafficAt(e: Element, i: nat)
    requires i < |Traffic(e)|
    ensures |Traffic(e)| == 1 + e.addrReq + e.length + if e.stop then 1 else 0
    ensures i == 0 ==> Traffic(e)[i] == StartBit
    ensures 1 <= i <= e.addrReq ==> Traffic(e)[i] == ByteOut(true)
    ensures e.addrReq < i <= e.addrReq + e.length ==>
      Traffic(e)[i] == if e.read then ByteIn(i == e.addrReq + e.length) else ByteOut(true)
    ensures i > e.addrReq + e.length ==> e.stop && Traffic(e)[i] == StopBit
  {
    assert |DataEvents(e.read, e.length)| == e.length;
  }

  function QueueTraffic(q: seq<Element>): seq<Event> {
    if q == [] then [] else Traffic(q[0]) + QueueTraffic(q[1..])
  }

  /** The traffic an element still has to be given commands for. */
  function Pending(e: Element): seq<Event> {
    (if e.startCmdSent then [] else [StartBit])
    + (if e.addrCmdSent then [] else Repeat(ByteOut(true), e.addrReq))
    + DataEvents(e.read, e.cmdBytesNeeded)
    + (if e.stop && !e.stopCmdSent then [StopBit] else [])
  }

  function QueuePending(q: seq<Element>): seq<Event> {
    if q == [] then [] else Pending(q[0]) + QueuePending(q[1..])
  }

  lemma {:induction false} PendingInitially(q: seq<Element>)
    requires forall e <- q :: e.Initial()
    ensures QueuePending(q) == QueueTraffic(q)
  {
    if q != [] {
      assert q[0] in q;
      PendingInitially(q[1..]);
    }
  }

  lemma {:induction false} PendingConcat(a: seq<Element>, b: seq<Element>)
    ensures QueuePending(a + b) == QueuePending(a) + QueuePending(b)
  {
    if a == [] {
      assert a + b == b;
    } else {
      assert (a + b)[1..] == a[1..] + b;
      PendingConcat(a[1..], b);
    }
  }

  lemma {:induction false} PendingDone(q: seq<Element>)
    requires forall e <- q :: e.Valid() && e.stopCmdSent
    ensures QueuePending(q) == []
  {
    if q != [] {
      assert q[0] in q;
      PendingDone(q[1..]);
    }
  }

  // ---- One command at a time: what is listed plus what is pending never changes ----

  function Account(cs: seq<Command>, e: Element): seq<Event> {
    Events(cs) + Pending(e)
  }

  const START_COMMAND := Command(RStart, 0, false, false, false)
  const STOP_COMMAND := Command(Stop, 0, false, false, false)
  const END_COMMAND := Command(End, 0, false, false, false)

  function AddressCommand(e: Element): Command { Command(Write, e.addrReq, false, false, true) }

  function BlockCommand(e: Element, n: nat): Command {
    Command(if e.read then Read else Write, n, false, false, !e.read)
  }

  const NAK_COMMAND := Command(Read, 1, true, false, false)

  lemma BodyAppendBlock(cs: seq<Command>, c: Command)
    requires Body(cs) && c.WellFormed() && c.IsBlock()
    ensures Body(cs + [c])
  {
  }

  lemma Shift(cs: seq<Command>, c: Command, e: Element, e': Element)
    requires Pending(e) == CommandEvents(c) + Pending(e')
    ensures Account(cs + [c], e') == Account(cs, e)
  {
  }

  lemma AddressStep(cs: seq<Command>, e: Element)
    requires e.startCmdSent && !e.addrCmdSent
    ensures Account(cs + [AddressCommand(e)], e.(addrCmdSent := true)) == Account(cs, e)
  {
    Shift(cs, AddressCommand(e), e, e.(addrCmdSent := true));
  }

  lemma StartStep(cs: seq<Command>, e: Element)
    requires !e.startCmdSent
    ensures Account(cs + [START_COMMAND], e.(startCmdSent := true)) == Account(cs, e)
  {
    Shift(cs, START_COMMAND, e, e.(startCmdSent := true));
  }

  lemma BodyAppendHeader(cs: seq<Command>, e: Element)
    requires Body(cs) && e.addrReq <= 2
    ensures Body(cs + [START_COMMAND] + [AddressCommand(e)])
  {
  }

  lemma HeaderStep(cs: seq<Command>, e: Element)
    requires Body(cs) && e.Valid() && !e.startCmdSent
    ensures Body(cs + [START_COMMAND] + [AddressCommand(e)])
    ensures Account(cs + [START_COMMAND] + [AddressCommand(e)], e.(startCmdSent := true, addrCmdSent := true)) == Account(cs, e)
  {
    hide Account, Body;
    StartStep(cs, e);
    AddressStep(cs + [START_COMMAND], e.(startCmdSent := true));
    BodyAppendHeader(cs, e);
  }

  lemma DataEventsSplit(read: bool, n: nat, m: nat)
    requires m <= n && (read ==> m < n)
    ensures DataEvents(read, n) == Repeat(if read then ByteIn(false) else ByteOut(true), m) + DataEvents(read, n - m)
  {
  }

  lemma BlockPending(e: Element, m: nat)
    requires e.addrCmdSent && e.startCmdSent && m <= e.cmdBytesNeeded && (e.read ==> m < e.cmdBytesNeeded)
    ensures Pending(e) == CommandEvents(BlockCommand(e, m)) + Pending(e.(cmdBytesNeeded := e.cmdBytesNeeded - m))
  {
    DataEventsSplit(e.read, e.cmdBytesNeeded, m);
  }

  lemma BlockStep(cs: seq<Command>, e: Element, m: nat)
    requires Body(cs) && e.addrCmdSent && e.startCmdSent
    requires m <= MAX_BLOCK && m <= e.cmdBytesNeeded && (e.read ==> m < e.cmdBytesNeeded)
    ensures Body(cs + [BlockCommand(e, m)])
    ensures Account(cs + [BlockCommand(e, m)], e.(cmdBytesNeeded := e.cmdBytesNeeded - m)) == Account(cs, e)
  {
    hide Body, Account, Pending, CommandEvents;
    BodyAppendBlock(cs, BlockCommand(e, m));
    BlockPending(e, m);
    Shift(cs, BlockCommand(e, m), e, e.(cmdBytesNeeded := e.cmdBytesNeeded - m));
  }

  lemma NakStep(cs: seq<Command>, e: Element)
    requires Body(cs) && e.addrCmdSent && e.startCmdSent && e.read && e.cmdBytesNeeded == 1
    ensures Body(cs + [NAK_COMMAND])
    ensures Account(cs + [NAK_COMMAND], e.(cmdBytesNeeded := 0)) == Account(cs, e)
  {
    BodyAppendBlock(cs, NAK_COMMAND);
    assert DataEvents(true, 1) == CommandEvents(NAK_COMMAND) + DataEvents(true, 0);
    Shift(cs, NAK_COMMAND, e, e.(cmdBytesNeeded := 0));
  }

  lemma StopStep(cs: seq<Command>, e: Element)
    requires e.Valid() && e.addrCmdSent && e.cmdBytesNeeded == 0 && !e.stopCmdSent
    ensures Account(if e.stop then cs + [STOP_COMMAND] else cs, e.(stopCmdSent := true)) == Account(cs, e)
  {
  }

  lemma EndStep(cs: seq<Command>, e: Element)
    ensures Account(cs + [END_COMMAND], e) == Account(cs, e)
  {
  }

  lemma ClosedByEnd(cs: seq<Command>)
    requires |cs| == 15 && Body(cs)
    ensures Terminated(cs + [END_COMMAND]) && !Stops(cs + [END_COMMAND])
  {
  }

  lemma ClosedByStop(cs: seq<Command>)
    requires |cs| <= 14 && Body(cs)
    ensures Terminated(cs + [STOP_COMMAND]) && Stops(cs + [STOP_COMMAND])
  {
  }

  lemma ClosedByStopAndEnd(cs: seq<Command>)
    requires |cs| == 14 && Body(cs)
    ensures Terminated(cs + [STOP_COMMAND] + [END_COMMAND]) && Stops(cs + [STOP_COMMAND] + [END_COMMAND])
  {
  }

  lemma BodyEndsWithBlock(cs: seq<Command>)
    requires Body(cs) && cs != []
    ensures LastBlock(cs) == |cs| - 1
  {
  }

  predicate AllValid(q: seq<Element>) {
    forall i :: 0 <= i < |q| ==> q[i].Valid()
  }

  lemma ValidAt(q: seq<Element>, k: nat)
    requires AllValid(q) && k < |q|
    ensures q[k].Valid()
  {
  }

  lemma AllValidUpdate(q: seq<Element>, k: nat, e: Element)
    requires AllValid(q) && k < |q| && e.Valid()
    ensures AllValid(q[k := e])
  {
  }

  /** All commands of the elements from k on have been issued. */
  predicate AllSent(q: seq<Element>, k: nat) {
    forall i :: k <= i < |q| ==> q[i].stopCmdSent
  }

  /** Elements whose commands have all been issued contribute nothing any more. */
  lemma PendingSkip(q: seq<Element>, from: nat, to: nat)
    requires from <= to <= |q|
    requires forall i :: from <= i < to ==> q[i].Valid() && q[i].stopCmdSent
    ensures QueuePending(q[from..]) == QueuePending(q[to..])
  {
    hide QueuePending;
    var done, rest := q[from..to], q[to..];
    assert q[from..] == done + rest;
    PendingConcat(done, rest);
    PendingDone(done);
  }

  /** An element and the rest of the queue share one account. */
  lemma QueueStep(cs: seq<Command>, q: seq<Element>, cs': seq<Command>, q': seq<Element>, k: nat)
    requires k < |q| == |q'| && q' == q[k := q'[k]]
    requires Account(cs', q'[k]) == Account(cs, q[k])
    ensures Events(cs') + QueuePending(q'[k..]) == Events(cs) + QueuePending(q[k..])
  {
    hide Pending, Events;
    var rest := q[k + 1..];
    assert q[k..][1..] == rest && q'[k..][1..] == rest;
    Assoc(Events(cs), Pending(q[k]), QueuePending(rest));
    Assoc(Events(cs'), Pending(q'[k]), QueuePending(rest));
  }
}
