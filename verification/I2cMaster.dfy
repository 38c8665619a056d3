/** The driver side of an I2C transaction: a queue of elements that is compiled, 15 commands
    at a time, into the command list of the peripheral. */
module I2cMaster {
  import opened Sequences
  import opened I2cCommands
  import opened I2cFilling
  import opened I2cPacing
  import opened I2cTransfer
  import Wire = I2cWire
  import Tx = I2cTxBytes

  /** One entry of the transaction queue. */
  class QueueElement {
    const data: seq<byte> // payload of a write, buffer of a read
    const read: bool
    const stop: bool
    const addrReq: nat
    const addr: nat
    var addrSent: nat
    var position: nat
    var startCmdSent: bool
    var addrCmdSent: bool
    var dataCmdSent: bool
    var stopCmdSent: bool
    var cmdBytesNeeded: nat

    /** A new entry: nothing sent yet. */
    constructor (read: bool, device: nat, data: seq<byte>, stop: bool)
      ensures View() == Queued(read, device, data, stop)
      ensures TxView() == TxQueued(read, device, data)
      ensures this.read == read && this.stop == stop && this.data == data && cmdBytesNeeded == |data|
      ensures addrReq == Tx.AddrReq(device) && addr == Tx.WireAddress(device, addrReq, read) && addrSent == position == 0
      ensures !startCmdSent && !addrCmdSent && !dataCmdSent && !stopCmdSent
    {
      this.data, this.read, this.stop := data, read, stop;
      addrReq := Tx.AddrReq(device);
      addr := Tx.WireAddress(device, Tx.AddrReq(device), read);
      addrSent, position, cmdBytesNeeded := 0, 0, |data|;
      startCmdSent, addrCmdSent, dataCmdSent, stopCmdSent := false, false, false, false;
    }

    ghost function View(): Element
      reads this`startCmdSent, this`addrCmdSent, this`dataCmdSent, this`stopCmdSent, this`cmdBytesNeeded
    {
      Element(read, stop, |data|, addrReq, startCmdSent, addrCmdSent, dataCmdSent, stopCmdSent, cmdBytesNeeded)
    }

    /** All its commands have been issued, and all its bytes pushed. */
    predicate Done()
      reads this
    {
      startCmdSent && addrCmdSent && cmdBytesNeeded == 0 && (stop ==> stopCmdSent) && AllPushed()
    }

    predicate AllPushed()
      reads this`addrSent, this`position
    {
      addrSent == addrReq && (read || position == |data|)
    }

    lemma DoneMeans()
      requires TxView().Valid() && 1 <= addrReq
      ensures Done() <==> Served(View()) && Tx.Pending(TxView()) == []
    {
    }

    ghost function TxView(): Tx.TxElement
      reads this`addrSent, this`position
    {
      Tx.TxElement(read, addrReq, addr, data, addrSent, position)
    }
  }

  ghost function Views(es: seq<QueueElement>): (vs: seq<Element>)
    reads es`startCmdSent, es`addrCmdSent, es`dataCmdSent, es`stopCmdSent, es`cmdBytesNeeded
    ensures |vs| == |es|
    ensures forall i :: 0 <= i < |es| ==> vs[i] == es[i].View()
  {
    if es == [] then [] else [es[0].View()] + Views(es[1..])
  }

  ghost function TxViews(es: seq<QueueElement>): (vs: seq<Tx.TxElement>)
    reads es`addrSent, es`position
    ensures |vs| == |es|
    ensures forall i :: 0 <= i < |es| ==> vs[i] == es[i].TxView()
  {
    if es == [] then [] else [es[0].TxView()] + TxViews(es[1..])
  }

  lemma ViewsAppend(es: seq<QueueElement>, e: QueueElement)
    ensures Views(es + [e]) == Views(es) + [e.View()]
    ensures TxViews(es + [e]) == TxViews(es) + [e.TxView()]
  {
  }

  lemma OneMoreValid(q: seq<Element>, e: Element, t: seq<Tx.TxElement>, x: Tx.TxElement)
    requires AllValid(q) && e.Valid() && Tx.AllValid(t) && x.Valid()
    ensures AllValid(q + [e]) && Tx.AllValid(t + [x])
  {
  }

  function Queued(read: bool, device: nat, data: seq<byte>, stop: bool): (e: Element)
    ensures e.Initial() && e.Valid()
  {
    Element(read, stop, |data|, Tx.AddrReq(device), false, false, false, false, |data|)
  }

  function TxQueued(read: bool, device: nat, data: seq<byte>): (e: Tx.TxElement)
    ensures e.Valid()
  {
    Tx.TxElement(read, Tx.AddrReq(device), Tx.WireAddress(device, Tx.AddrReq(device), read), data, 0, 0)
  }

  /** The elements as they were queued. */
  ghost function AsQueued(es: seq<QueueElement>): (vs: seq<Tx.TxElement>)
    ensures |vs| == |es|
    ensures forall i :: 0 <= i < |es| ==>
      vs[i] == Tx.TxElement(es[i].read, es[i].addrReq, es[i].addr, es[i].data, 0, 0)
  {
    if es == [] then []
    else [Tx.TxElement(es[0].read, es[0].addrReq, es[0].addr, es[0].data, 0, 0)] + AsQueued(es[1..])
  }

  lemma QueuedBytes(es: seq<QueueElement>)
    ensures Tx.QueueBytes(TxViews(es)) == Tx.QueueBytes(AsQueued(es))
  {
    Tx.SameQueueBytes(AsQueued(es), TxViews(es));
  }

  lemma QueuedViews(es: seq<QueueElement>)
    requires Handed(Views(es)) && Tx.Untouched(TxViews(es), 0)
    ensures Ready(Views(es)) && Alike(Views(es), TxViews(es)) && TxViews(es) == AsQueued(es)
  {
    ViewsAlike(es);
  }

  lemma ViewsAlike(es: seq<QueueElement>)
    requires AllInitial(Views(es))
    ensures Alike(Views(es), TxViews(es))
  {
    assert forall i :: 0 <= i < |es| ==> Views(es)[i].Initial();
  }

  class I2c {
    const command: array<Command>
    var dq: seq<QueueElement>
    var queuePos: nat
    var endDetectEna: bool
    var txEmptyEna: bool
    var txFifoCnt: nat
    var pushed: seq<byte> // all that went into the transmit FIFO since it was reset
    var issued: seq<seq<Command>> // the lists the peripheral was started with
    var bus: seq<Event> // what it has done so far
    var rest: seq<Event> // what it still has to do for the current list
    ghost var kept: seq<Event> // the traffic in front of commands that were passed over, if any
    ghost var later: seq<Event> // the traffic behind them

    /** No element is queued twice, and each is in a state the driver can leave it in. */
    ghost predicate Valid()
      reads this`dq, dq`startCmdSent, dq`addrCmdSent, dq`dataCmdSent, dq`stopCmdSent, dq`cmdBytesNeeded
    {
      && command.Length == SLOTS
      && Distinct(dq)
      && AllValid(Views(dq))
    }

    constructor ()
      ensures Valid() && TxValid() && dq == [] && queuePos == 0 && pushed == [] && command.Length == SLOTS
      ensures fresh(command)
    {
      command := new Command[SLOTS](_ => END_COMMAND);
      dq, queuePos, endDetectEna, txEmptyEna, txFifoCnt, pushed := [], 0, false, false, 0, [];
      issued, bus, rest, kept, later := [], [], [], [], [];
    }

    method AddQueue(read: bool, device: nat, data: seq<byte>, sendStop: bool)
      requires Valid() && TxValid()
      modifies this`dq
      ensures Valid() && TxValid()
      ensures |dq| == |old(dq)| + 1 && dq[..|old(dq)|] == old(dq) && fresh(dq[|old(dq)|])
      ensures var e := dq[|old(dq)|]; e.read == read && e.stop == sendStop && e.data == data
      ensures Views(dq) == old(Views(dq)) + [Queued(read, device, data, sendStop)]
      ensures TxViews(dq) == old(TxViews(dq)) + [TxQueued(read, device, data)]
    {
      hide Views, TxViews, Queued, TxQueued, AllValid, Tx.AllValid, Distinct;
      var dqx := new QueueElement(read, device, data, sendStop);
      ViewsAppend(dq, dqx);
      OneMoreValid(Views(dq), dqx.View(), TxViews(dq), dqx.TxView());
      DistinctAppend(dq, dqx);
      dq := dq + [dqx];
    }

    /** A read with a 10-bit address writes the address first. */
    method AddQueueRead(device: nat, buffer: seq<byte>, sendStop: bool)
      requires Valid() && TxValid()
      modifies this`dq
      ensures Valid() && TxValid()
      ensures Views(dq) == old(Views(dq)) +
                if Tx.AddrReq(device) == 2 then
                  [Queued(false, device, [], false), Queued(true, device / 256, buffer, sendStop)]
                else [Queued(true, device, buffer, sendStop)]
    {
      hide Views, TxViews, Valid, TxValid, Queued, TxQueued;
      if Tx.AddrReq(device) == 2 {
        AddQueue(false, device, [], false);
        AddQueue(true, device / 256, buffer, sendStop);
      } else {
        AddQueue(true, device, buffer, sendStop);
      }
    }

    method SetCmd(index: nat, op: Op, bytes: nat, ackVal: bool, ackExp: bool, ackCheck: bool)
      requires index < command.Length
      modifies command
      ensures command[..index + 1] == old(command[..index]) + [Command(op, bytes, ackVal, ackExp, ackCheck)]
    {
      command[index] := Command(op, bytes, ackVal, ackExp, ackCheck);
    }

    /** START and address of an element, unless there is no room for both before END. */
    method AddHeader(tdq: QueueElement, cmdIdx0: nat) returns (cmdIdx: nat)
      requires command.Length == SLOTS && cmdIdx0 <= 14
      requires tdq.View().Valid() && Body(command[..cmdIdx0])
      modifies command, tdq`startCmdSent, tdq`addrCmdSent
      ensures cmdIdx0 <= cmdIdx <= 15 && Body(command[..cmdIdx])
      ensures tdq.View().Valid()
      ensures tdq.addrCmdSent == tdq.startCmdSent == (old(tdq.startCmdSent) || cmdIdx0 < 14)
      ensures tdq.View() == old(tdq.View()).(startCmdSent := tdq.startCmdSent, addrCmdSent := tdq.startCmdSent)
      ensures cmdIdx == if tdq.startCmdSent && !old(tdq.startCmdSent) then cmdIdx0 + 2 else cmdIdx0
      ensures Account(command[..cmdIdx], tdq.View()) == old(Account(command[..cmdIdx0], tdq.View()))
    {
      hide Body, Account;
      cmdIdx := cmdIdx0;
      ghost var cs, e := command[..cmdIdx0], tdq.View();
      if !tdq.startCmdSent && cmdIdx < 14 {
        SetCmd(cmdIdx, RStart, 0, false, false, false);
        cmdIdx := cmdIdx + 1;
        tdq.startCmdSent := true;
      }
      if tdq.startCmdSent && !tdq.addrCmdSent {
        SetCmd(cmdIdx, Write, tdq.addrReq, false, false, true);
        cmdIdx := cmdIdx + 1;
        tdq.addrCmdSent := true;
        HeaderStep(cs, e);
      }
    }

    /** One data block, not the last byte of a read. */
    method AddBlock(tdq: QueueElement, cmdIdx: nat, blkSize: nat)
      requires command.Length == SLOTS && cmdIdx <= 14
      requires tdq.View().Valid() && tdq.addrCmdSent && Body(command[..cmdIdx])
      requires blkSize <= MAX_BLOCK && blkSize <= tdq.cmdBytesNeeded && (tdq.read ==> blkSize < tdq.cmdBytesNeeded)
      modifies command, tdq`cmdBytesNeeded
      ensures tdq.View() == old(tdq.View()).(cmdBytesNeeded := old(tdq.cmdBytesNeeded) - blkSize)
      ensures Body(command[..cmdIdx + 1])
      ensures Account(command[..cmdIdx + 1], tdq.View()) == old(Account(command[..cmdIdx], tdq.View()))
    {
      hide Body, Account;
      BlockStep(command[..cmdIdx], tdq.View(), blkSize);
      tdq.cmdBytesNeeded := tdq.cmdBytesNeeded - blkSize;
      if tdq.read {
        SetCmd(cmdIdx, Read, blkSize, false, false, false); // this cannot be the last read
      } else {
        SetCmd(cmdIdx, Write, blkSize, false, false, true);
      }
    }

    /** As many data blocks as fit; the last byte of a read goes into a block of its own. */
    method AddData(tdq: QueueElement, cmdIdx0: nat) returns (cmdIdx: nat)
      requires command.Length == SLOTS && cmdIdx0 <= 14
      requires tdq.View().Valid() && tdq.addrCmdSent && Body(command[..cmdIdx0])
      modifies command, tdq`cmdBytesNeeded, tdq`dataCmdSent
      ensures cmdIdx0 <= cmdIdx <= 15 && Body(command[..cmdIdx])
      ensures tdq.View().Valid()
      ensures tdq.dataCmdSent == (tdq.cmdBytesNeeded == 0)
      ensures cmdIdx <= 14 ==> tdq.dataCmdSent
      ensures if old(tdq.cmdBytesNeeded) == 0 then cmdIdx == cmdIdx0 else tdq.cmdBytesNeeded < old(tdq.cmdBytesNeeded)
      ensures !tdq.read ==>
        var blocks, room := Blocks(old(tdq.cmdBytesNeeded)), 15 - cmdIdx0;
        && tdq.cmdBytesNeeded == Left(old(tdq.cmdBytesNeeded), room)
        && cmdIdx == cmdIdx0 + if blocks <= room then blocks else room
      ensures tdq.read && old(tdq.cmdBytesNeeded) > 0 ==>
        var n, room := old(tdq.cmdBytesNeeded) - 1, 15 - cmdIdx0; // the last byte has its own command
        && tdq.cmdBytesNeeded == (if Blocks(n) < room then 0 else Left(n, room) + 1)
        && cmdIdx == if Blocks(n) < room then cmdIdx0 + Blocks(n) + 1 else 15
      ensures Account(command[..cmdIdx], tdq.View()) == old(Account(command[..cmdIdx0], tdq.View()))
    {
      hide Body, Events, DataEvents, CommandEvents, Repeat;
      cmdIdx := cmdIdx0;
      var done := false;
      var mode := if tdq.read then 1 else 0;
      while tdq.cmdBytesNeeded > mode && !done
        invariant cmdIdx0 <= cmdIdx <= 15 && done == (cmdIdx > 14)
        invariant tdq.View().Valid() && tdq.addrCmdSent && Body(command[..cmdIdx])
        invariant !tdq.read ==>
          tdq.cmdBytesNeeded == Left(old(tdq.cmdBytesNeeded), cmdIdx - cmdIdx0) && cmdIdx - cmdIdx0 <= Blocks(old(tdq.cmdBytesNeeded))
        invariant tdq.read && old(tdq.cmdBytesNeeded) > 0 ==>
          && tdq.cmdBytesNeeded == Left(old(tdq.cmdBytesNeeded) - 1, cmdIdx - cmdIdx0) + 1
          && cmdIdx - cmdIdx0 <= Blocks(old(tdq.cmdBytesNeeded) - 1)
        invariant if cmdIdx == cmdIdx0 then tdq.cmdBytesNeeded == old(tdq.cmdBytesNeeded)
                  else tdq.cmdBytesNeeded < old(tdq.cmdBytesNeeded)
        invariant Account(command[..cmdIdx], tdq.View()) == old(Account(command[..cmdIdx0], tdq.View()))
        decreases tdq.cmdBytesNeeded
      {
        var blkSize := if tdq.cmdBytesNeeded > MAX_BLOCK then MAX_BLOCK else tdq.cmdBytesNeeded - mode;
        AddBlock(tdq, cmdIdx, blkSize);
        cmdIdx := cmdIdx + 1;
        done := cmdIdx > 14;
      }
      if !done && tdq.read && tdq.cmdBytesNeeded == 1 {
        AddLastRead(tdq, cmdIdx);
        cmdIdx := cmdIdx + 1;
      }
      tdq.dataCmdSent := tdq.cmdBytesNeeded == 0;
    }

    /** The last byte of a read, answered with NAK. */
    method AddLastRead(tdq: QueueElement, cmdIdx: nat)
      requires command.Length == SLOTS && cmdIdx <= 14
      requires tdq.View().Valid() && tdq.addrCmdSent && Body(command[..cmdIdx])
      requires tdq.read && tdq.cmdBytesNeeded == 1
      modifies command, tdq`cmdBytesNeeded
      ensures tdq.View() == old(tdq.View()).(cmdBytesNeeded := 0)
      ensures Body(command[..cmdIdx + 1])
      ensures Account(command[..cmdIdx + 1], tdq.View()) == old(Account(command[..cmdIdx], tdq.View()))
    {
      hide Body, Account;
      NakStep(command[..cmdIdx], tdq.View());
      SetCmd(cmdIdx, Read, 1, true, false, false);
      tdq.cmdBytesNeeded := 0;
    }

    /** STOP, if the element wants one. */
    method AddStop(tdq: QueueElement, cmdIdx0: nat) returns (cmdIdx: nat)
      requires command.Length == SLOTS && cmdIdx0 <= 14
      requires tdq.View().Valid() && tdq.addrCmdSent && tdq.dataCmdSent && tdq.cmdBytesNeeded == 0
      modifies command, tdq`stopCmdSent
      ensures tdq.View().Valid() && tdq.stopCmdSent
      ensures command[..cmdIdx0] == old(command[..cmdIdx0])
      ensures if tdq.stop && !old(tdq.stopCmdSent) then
                cmdIdx == cmdIdx0 + 1 && command[..cmdIdx] == old(command[..cmdIdx0]) + [STOP_COMMAND]
              else cmdIdx == cmdIdx0
      ensures Account(command[..cmdIdx], tdq.View()) == old(Account(command[..cmdIdx0], tdq.View()))
    {
      cmdIdx := cmdIdx0;
      if !tdq.stopCmdSent {
        StopStep(command[..cmdIdx], tdq.View());
        if tdq.stop {
          SetCmd(cmdIdx, Stop, 0, false, false, false);
          cmdIdx := cmdIdx + 1;
        }
        tdq.stopCmdSent := true;
      }
    }

    /** Slots 0 to 13 are taken and only a START could go into slot 14, directly before END:
        move the tail of the list up by one, leaving a zero-byte block behind. */
    method Stretch()
      requires command.Length == SLOTS
      modifies command
      ensures command[..15] == Stretched(old(command[..14]))
      ensures forall p: nat :: p < 14 && old(command[..14])[p].IsBlock() && (forall k :: p < k < 14 ==> !old(command[..14])[k].IsBlock()) ==>
        var cs := old(command[..14]); command[..15] == cs[..p] + [cs[p].(bytes := 0)] + cs[p..]
    {
      ghost var cs := command[..14];
      var i := 13;
      var done := false;
      while !done
        invariant 0 <= i <= 13
        invariant forall k :: i < k < 14 ==> !cs[k].IsBlock()
        invariant forall k :: 0 <= k < i ==> command[k] == cs[k]
        invariant forall k :: i + 1 < k < 15 ==> command[k] == cs[k - 1]
        invariant !done ==> command[i] == cs[i]
        invariant done ==> command[i + 1] == cs[i]
        invariant done ==> if cs[i].IsBlock() then command[i] == cs[i].(bytes := 0) else i == 0 && command[0] == cs[0]
        decreases !done, i
      {
        command[i + 1] := command[i];
        if command[i].op == Write || command[i].op == Read {
          command[i] := command[i].(bytes := 0);
          done := true;
        } else if i > 0 {
          i := i - 1;
        } else { // unable to stretch
          done := true;
        }
      }
      StretchedAt(cs, i, command[..15]);
      assert forall p: nat :: p < 14 && cs[p].IsBlock() && (forall k :: p < k < 14 ==> !cs[k].IsBlock()) ==> p == LastBlock(cs);
    }

    /** Everything that still fits for one element. */
    method AddCommands(tdq: QueueElement, cmdIdx0: nat) returns (cmdIdx: nat, ghost stopped: bool)
      requires command.Length == SLOTS && cmdIdx0 <= 14
      requires tdq.View().Valid() && Body(command[..cmdIdx0])
      modifies command, tdq`startCmdSent, tdq`addrCmdSent, tdq`dataCmdSent, tdq`stopCmdSent, tdq`cmdBytesNeeded
      ensures tdq.View().Valid()
      ensures cmdIdx0 <= cmdIdx <= 15
      ensures Account(command[..cmdIdx], tdq.View()) == old(Account(command[..cmdIdx0], tdq.View()))
      ensures stopped == (tdq.stop && tdq.stopCmdSent && !old(tdq.stopCmdSent))
      ensures if stopped then
                0 < cmdIdx && command[cmdIdx - 1] == STOP_COMMAND && Body(command[..cmdIdx - 1])
              else Body(command[..cmdIdx])
      ensures !tdq.startCmdSent ==> cmdIdx == 14
      ensures tdq.startCmdSent && cmdIdx <= 14 ==> tdq.stopCmdSent
      ensures cmdIdx == 15 && !stopped ==> !tdq.stopCmdSent
      ensures old(tdq.stopCmdSent) ==> tdq.stopCmdSent
      ensures !tdq.read && !tdq.stop ==>
        Spend(old(tdq.View()), 15 - cmdIdx0) == Spent(tdq.View(), if tdq.startCmdSent then 15 - cmdIdx else 0)
      ensures Work(tdq.View()) <= old(Work(tdq.View()))
      ensures cmdIdx0 < 14 && !old(tdq.stopCmdSent) ==> Work(tdq.View()) < old(Work(tdq.View()))
    {
      hide Body, Account, Blocks, Left;
      stopped := false;
      cmdIdx := AddHeader(tdq, cmdIdx0);
      BlocksSuffice(tdq.cmdBytesNeeded, 15 - cmdIdx);
      if cmdIdx <= 14 && tdq.addrCmdSent {
        cmdIdx := AddData(tdq, cmdIdx);
        if cmdIdx <= 14 && tdq.dataCmdSent {
          stopped := tdq.stop && !tdq.stopCmdSent;
          cmdIdx := AddStop(tdq, cmdIdx);
        }
      }
    }

    /** Slot 15 of a full list. */
    method AddEnd(ghost stopped: bool)
      requires command.Length == SLOTS
      requires if stopped then command[14] == STOP_COMMAND && Body(command[..14]) else Body(command[..15])
      modifies command
      ensures command[..] == old(command[..15]) + [END_COMMAND]
      ensures Terminated(command[..]) && (Stops(command[..]) <==> stopped)
    {
      if stopped {
        ClosedByStopAndEnd(command[..14]);
        assert command[..15] == command[..14] + [STOP_COMMAND];
      } else {
        ClosedByEnd(command[..15]);
      }
      SetCmd(15, End, 0, false, false, false);
      assert command[..16] == command[..];
    }

    /** One pass of the filling loop. */
    method AddElement(tdq: QueueElement, cmdIdx0: nat) returns (cmdIdx: nat)
      requires command.Length == SLOTS && cmdIdx0 <= 14
      requires tdq.View().Valid() && Body(command[..cmdIdx0])
      modifies this`endDetectEna, command, tdq`startCmdSent, tdq`addrCmdSent, tdq`dataCmdSent, tdq`stopCmdSent, tdq`cmdBytesNeeded
      ensures tdq.View().Valid()
      ensures cmdIdx <= SLOTS
      ensures Account(command[..cmdIdx], tdq.View()) == old(Account(command[..cmdIdx0], tdq.View()))
      ensures PassResult(old(command[..cmdIdx0]), command[..cmdIdx], old(tdq.View()), tdq.View())
      ensures endDetectEna == (old(endDetectEna) || cmdIdx == SLOTS)
    {
      hide Body, Stretched, Terminated, Stops, Events;
      ghost var stopped;
      cmdIdx, stopped := AddCommands(tdq, cmdIdx0);
      if cmdIdx == 14 && !tdq.startCmdSent {
        ghost var cs := command[..14];
        BodyEndsWithBlock(cs);
        StretchedBody(cs);
        StretchedEvents(cs);
        Stretch();
        cmdIdx := 15;
      }
      if cmdIdx == 15 { // even if STOP is in slot 14
        EndStep(command[..15], tdq.View());
        AddEnd(stopped);
        cmdIdx := cmdIdx + 1;
        endDetectEna := true;
        assert command[..16] == command[..];
      } else if stopped {
        ClosedByStop(command[..cmdIdx - 1]);
        assert command[..cmdIdx] == command[..cmdIdx - 1] + [STOP_COMMAND];
      }
    }

    /** The first element from queuePos on that still needs commands. */
    method FirstUnsent() returns (qp: nat)
      requires Valid() && queuePos <= |dq|
      ensures queuePos <= qp <= |dq|
      ensures if qp < |dq| then Filling(Views(dq), Views(dq), queuePos, qp, [])
              else Filled(Views(dq), Views(dq), queuePos, [])
    {
      hide Filling, Filled;
      qp := queuePos;
      var needMoreCmds := false;
      while !needMoreCmds && qp < |dq|
        invariant queuePos <= qp <= |dq|
        invariant forall i :: queuePos <= i < qp ==> dq[i].stopCmdSent
        invariant needMoreCmds ==> qp < |dq| && !dq[qp].stopCmdSent
        decreases |dq| - qp, !needMoreCmds
      {
        if dq[qp].stopCmdSent {
          qp := qp + 1;
        } else {
          needMoreCmds := true;
        }
      }
      FillingStart(Views(dq), queuePos, qp);
    }

    /** One pass of the filling loop, seen from the whole queue. */
    method FillPass(qp: nat, cmdIdx0: nat) returns (cmdIdx: nat)
      requires Valid() && qp < |dq| && cmdIdx0 <= 14 && Body(command[..cmdIdx0])
      modifies this`endDetectEna, command, dq`startCmdSent, dq`addrCmdSent, dq`dataCmdSent, dq`stopCmdSent, dq`cmdBytesNeeded
      ensures Valid() && cmdIdx <= SLOTS
      ensures FillPassed(old(Views(dq)), Views(dq), qp, old(command[..cmdIdx0]), command[..cmdIdx])
      ensures endDetectEna == (old(endDetectEna) || cmdIdx == SLOTS)
    {
      hide Body, Account, PassResult, FillPassed, AllValid, Views;
      ghost var q, cs := Views(dq), command[..cmdIdx0];
      ValidAt(q, qp);
      cmdIdx := AddElement(dq[qp], cmdIdx0);
      assert forall i :: 0 <= i < |dq| && i != qp ==> dq[i].View() == q[i];
      assert Views(dq) == q[qp := dq[qp].View()];
      PassOfQueue(q, Views(dq), qp, dq[qp].View(), cs, command[..cmdIdx]);
    }

    /** The same pass, as a step of the filling loop that began with the queue q0. */
    method FillStep(ghost q0: seq<Element>, qp: nat, cmdIdx0: nat) returns (cmdIdx: nat)
      requires Valid() && OnlyLastStops(Views(dq)) && qp < |dq| && cmdIdx0 <= 14
      requires Filling(q0, Views(dq), queuePos, qp, command[..cmdIdx0])
      modifies this`endDetectEna, command, dq`startCmdSent, dq`addrCmdSent, dq`dataCmdSent, dq`stopCmdSent, dq`cmdBytesNeeded
      ensures Valid() && OnlyLastStops(Views(dq))
      ensures cmdIdx == SLOTS || (cmdIdx <= 14 && dq[qp].stopCmdSent)
      ensures endDetectEna == (old(endDetectEna) || cmdIdx == SLOTS)
      ensures if cmdIdx == SLOTS || qp + 1 == |dq| then Filled(q0, Views(dq), queuePos, command[..cmdIdx])
              else Filling(q0, Views(dq), queuePos, qp + 1, command[..cmdIdx])
    {
      hide Distinct, Body, FillPassed, Filled, OnlyLastStops, Filling;
      ghost var q, cs := Views(dq), command[..cmdIdx0];
      FillingBody(q0, q, queuePos, qp, cs);
      cmdIdx := FillPass(qp, cmdIdx0);
      FillingStep(q0, q, queuePos, qp, cs, Views(dq), command[..cmdIdx]);
    }

    /** Fills the command list from the element at queuePos on, and returns how many slots
        were written. In the interrupt a list with a WRITE enables the transmit interrupt. */
    method FillCmdQueue(ints: bool) returns (cmdIdx: nat)
      requires Valid() && command.Length == SLOTS && OnlyLastStops(Views(dq)) && queuePos <= |dq|
      modifies this`endDetectEna, this`txEmptyEna, command, dq`startCmdSent, dq`addrCmdSent, dq`dataCmdSent, dq`stopCmdSent, dq`cmdBytesNeeded
      ensures Valid() && OnlyLastStops(Views(dq)) && cmdIdx <= SLOTS
      ensures Filled(old(Views(dq)), Views(dq), queuePos, command[..cmdIdx])
      ensures endDetectEna == (old(endDetectEna) || cmdIdx == SLOTS)
      ensures txEmptyEna == (old(txEmptyEna) || (ints && exists c <- command[..cmdIdx] :: c.op == Write))
    {
      hide Views, Valid, Filled, OnlyLastStops, Filling;
      cmdIdx := 0;
      ghost var q0 := Views(dq);
      var qp := FirstUnsent();
      assert command[..0] == [];
      var done := qp == |dq|;
      while !done
        invariant Valid() && OnlyLastStops(Views(dq)) && cmdIdx <= SLOTS == command.Length
        invariant txEmptyEna == old(txEmptyEna) && endDetectEna == (old(endDetectEna) || cmdIdx == SLOTS)
        invariant !done ==> qp < |dq| && cmdIdx <= 14 && Filling(q0, Views(dq), queuePos, qp, command[..cmdIdx])
        invariant done ==> Filled(q0, Views(dq), queuePos, command[..cmdIdx])
        decreases |dq| - qp, !done
      {
        cmdIdx := FillStep(q0, qp, cmdIdx);
        if cmdIdx == SLOTS {
          done := true;
        } else if dq[qp].stopCmdSent {
          qp := qp + 1;
          done := qp == |dq|;
        }
      }
      EnableTx(ints, cmdIdx);
    }

    method EnableTx(ints: bool, cmdIdx: nat)
      requires cmdIdx <= command.Length
      modifies this`txEmptyEna
      ensures txEmptyEna == (old(txEmptyEna) || (ints && exists c <- command[..cmdIdx] :: c.op == Write))
    {
      if ints && exists c <- command[..cmdIdx] :: c.op == Write {
        txEmptyEna := true;
      }
    }

    // ---- Feeding the transmit FIFO ----

    ghost predicate TxValid()
      reads this`dq, this`txFifoCnt, dq`addrSent, dq`position
    {
      && Distinct(dq)
      && Tx.AllValid(TxViews(dq))
      && txFifoCnt <= Tx.FIFO_SIZE
    }

    method PushByte(b: byte)
      requires txFifoCnt < Tx.FIFO_SIZE
      modifies this`txFifoCnt, this`pushed
      ensures txFifoCnt == old(txFifoCnt) + 1 && pushed == old(pushed) + [b]
    {
      txFifoCnt := txFifoCnt + 1;
      pushed := pushed + [b];
    }

    /** The address bytes of an element, as far as there is room. */
    method FeedAddress(tdq: QueueElement)
      requires tdq.TxView().Valid() && txFifoCnt < Tx.FIFO_FULL
      modifies this`txFifoCnt, this`pushed, tdq`addrSent
      ensures tdq.TxView().Valid() && txFifoCnt <= Tx.FIFO_SIZE
      ensures pushed + Tx.Pending(tdq.TxView()) == old(pushed + Tx.Pending(tdq.TxView()))
      ensures |pushed| - txFifoCnt == old(|pushed| - txFifoCnt)
      ensures tdq.addrSent == tdq.addrReq || txFifoCnt >= Tx.FIFO_FULL
      ensures tdq.addrSent >= old(tdq.addrSent)
    {
      hide Tx.Pending;
      if tdq.addrSent < tdq.addrReq {
        if tdq.addrReq == 2 {
          if tdq.addrSent == 0 {
            Tx.AddressStep(pushed, tdq.TxView());
            PushByte(tdq.addr / 256 % 256);
            tdq.addrSent := 1;
          }
          var full := !(txFifoCnt < Tx.FIFO_FULL);
          if tdq.addrSent == 1 && !full {
            Tx.AddressStep(pushed, tdq.TxView());
            PushByte(tdq.addr % 256);
            tdq.addrSent := 2;
          }
        } else if tdq.addrSent == 0 {
          Tx.AddressStep(pushed, tdq.TxView());
          PushByte(tdq.addr % 256);
          tdq.addrSent := 1;
        }
      }
    }

    /** The payload of a write whose address is complete, as far as there is room. */
    method FeedData(tdq: QueueElement)
      requires tdq.TxView().Valid() && txFifoCnt <= Tx.FIFO_SIZE
      requires !tdq.read && tdq.addrSent == tdq.addrReq
      modifies this`txFifoCnt, this`pushed, tdq`position
      ensures tdq.TxView().Valid() && txFifoCnt <= Tx.FIFO_SIZE
      ensures pushed + Tx.Pending(tdq.TxView()) == old(pushed + Tx.Pending(tdq.TxView()))
      ensures |pushed| - txFifoCnt == old(|pushed| - txFifoCnt)
      ensures tdq.position == |tdq.data| || txFifoCnt == Tx.FIFO_SIZE
      ensures tdq.position >= old(tdq.position)
    {
      hide Tx.Pending;
      var moveCnt := Tx.FIFO_SIZE - txFifoCnt;
      while moveCnt > 0 && tdq.position < |tdq.data|
        invariant tdq.TxView().Valid() && txFifoCnt == Tx.FIFO_SIZE - moveCnt && 0 <= moveCnt
        invariant pushed + Tx.Pending(tdq.TxView()) == old(pushed + Tx.Pending(tdq.TxView()))
        invariant |pushed| - txFifoCnt == old(|pushed| - txFifoCnt) && tdq.position >= old(tdq.position)
      {
        Tx.DataStep(pushed, tdq.TxView());
        PushByte(tdq.data[tdq.position]);
        tdq.position := tdq.position + 1;
        moveCnt := moveCnt - 1;
      }
    }

    method FeedElement(tdq: QueueElement)
      requires tdq.TxView().Valid() && txFifoCnt < Tx.FIFO_FULL
      modifies this`txFifoCnt, this`pushed, tdq`addrSent, tdq`position
      ensures tdq.TxView().Valid() && txFifoCnt <= Tx.FIFO_SIZE
      ensures pushed + Tx.Pending(tdq.TxView()) == old(pushed + Tx.Pending(tdq.TxView()))
      ensures |pushed| - txFifoCnt == old(|pushed| - txFifoCnt)
      ensures Tx.Pending(tdq.TxView()) == [] || txFifoCnt >= Tx.FIFO_FULL
      ensures Tx.SameBytes(old(tdq.TxView()), tdq.TxView())
    {
      FeedAddress(tdq);
      if !tdq.read && tdq.addrSent == tdq.addrReq {
        FeedData(tdq);
      }
    }

    /** The same, seen from the whole queue. */
    method FeedAt(a: nat, ghost total: seq<byte>)
      requires TxValid() && txFifoCnt < Tx.FIFO_FULL && a < |dq| && Tx.PushedBefore(TxViews(dq), a)
      requires Tx.Balanced(pushed, TxViews(dq), total)
      modifies this`txFifoCnt, this`pushed, dq`addrSent, dq`position
      ensures TxValid() && Tx.Balanced(pushed, TxViews(dq), total)
      ensures TxViews(dq) == old(TxViews(dq))[a := dq[a].TxView()]
      ensures Tx.Pending(dq[a].TxView()) == [] || txFifoCnt >= Tx.FIFO_FULL
      ensures Tx.SameBytes(old(TxViews(dq))[a], dq[a].TxView())
      ensures |pushed| - txFifoCnt == old(|pushed| - txFifoCnt)
    {
      hide Tx.Pending, Tx.QueuePending, TxViews;
      ghost var q, p := TxViews(dq), pushed;
      FeedElement(dq[a]);
      assert forall i :: 0 <= i < |dq| && i != a ==> dq[i].TxView() == q[i];
      Tx.QueueStep(p, q, pushed, dq[a].TxView(), a);
      Tx.AllValidUpdate(q, a, dq[a].TxView());
      assert TxViews(dq) == q[a := dq[a].TxView()];
    }

    /** The same, as a step of the loop that began at pos0 with the queue q0. */
    method FeedPass(a: nat, ghost q0: seq<Tx.TxElement>, ghost pos0: nat, readMet0: bool, ghost taken: nat)
      returns (readMet: bool)
      requires TxValid() && txFifoCnt < Tx.FIFO_FULL && a < |dq|
      requires Tx.Feeding(q0, TxViews(dq), pos0, queuePos, a, readMet0, pushed, txFifoCnt, taken)
      modifies this`txFifoCnt, this`pushed, this`queuePos, dq`addrSent, dq`position
      ensures TxValid() && readMet == (readMet0 || dq[a].read)
      ensures Tx.Feeding(q0, TxViews(dq), pos0, queuePos, a, readMet, pushed, txFifoCnt, taken)
      ensures txFifoCnt < Tx.FIFO_FULL ==>
        Tx.Feeding(q0, TxViews(dq), pos0, queuePos, a + 1, readMet, pushed, txFifoCnt, taken)
    {
      hide TxValid, TxViews, Tx.Balanced, Tx.PushedBefore, Tx.Feeding, Tx.Pending, Tx.QueueBytes;
      ghost var q, p, c := TxViews(dq), pushed, txFifoCnt;
      Tx.FeedingFacts(q0, q, pos0, queuePos, a, readMet0, p, c, taken);
      FeedAt(a, Tx.QueueBytes(q0));
      Tx.FeedingStep(q0, q, dq[a].TxView(), pos0, queuePos, a, readMet0, p, c, pushed, txFifoCnt, taken);
      readMet := NoteRead(a, readMet0);
    }

    method FeedNext(a: nat, ghost q0: seq<Tx.TxElement>, ghost pos0: nat, readMet0: bool, ghost taken: nat)
      returns (a': nat, readMet: bool, full: bool)
      requires TxValid() && txFifoCnt < Tx.FIFO_FULL && a < |dq|
      requires Tx.Feeding(q0, TxViews(dq), pos0, queuePos, a, readMet0, pushed, txFifoCnt, taken)
      modifies this`txFifoCnt, this`pushed, this`queuePos, dq`addrSent, dq`position
      ensures TxValid()
      ensures Tx.Feeding(q0, TxViews(dq), pos0, queuePos, a', readMet, pushed, txFifoCnt, taken)
      ensures full == (txFifoCnt >= Tx.FIFO_FULL) && a' == if full then a else a + 1
      ensures full ==> readMet || !dq[a].read
    {
      hide Tx.Feeding;
      readMet := FeedPass(a, q0, pos0, readMet0, taken);
      full := !(txFifoCnt < Tx.FIFO_FULL);
      a' := if full then a else a + 1;
    }

    /** queuePos must not move past the first read; the receive interrupt does that. */
    method NoteRead(a: nat, readMet0: bool) returns (readMet: bool)
      requires a < |dq| && queuePos <= a
      modifies this`queuePos
      ensures readMet == (readMet0 || dq[a].read)
      ensures queuePos == if dq[a].read && !readMet0 then a else old(queuePos)
    {
      readMet := readMet0;
      if dq[a].read && !readMet {
        readMet := true;
        if a > queuePos {
          queuePos := a;
        }
      }
    }

    /** Feeds one element after the other; a is the first that may be incomplete. */
    method FeedAll(ghost q0: seq<Tx.TxElement>, ghost taken: nat) returns (a: nat, readMet: bool)
      requires TxValid() && q0 == TxViews(dq)
      requires Tx.Feeding(q0, q0, queuePos, queuePos, queuePos, false, pushed, txFifoCnt, taken)
      modifies this`txFifoCnt, this`pushed, this`queuePos, dq`addrSent, dq`position
      ensures TxValid()
      ensures Tx.Feeding(q0, TxViews(dq), old(queuePos), queuePos, a, readMet, pushed, txFifoCnt, taken)
      ensures a == |dq| ||
              (a < |dq| && txFifoCnt >= Tx.FIFO_FULL && (readMet || !dq[a].read || a == old(queuePos)))
    {
      hide TxViews, TxValid, Tx.Feeding, Tx.PushedBefore;
      Tx.FeedingFacts(q0, q0, queuePos, queuePos, queuePos, false, pushed, txFifoCnt, taken);
      a := queuePos;
      var full := !(txFifoCnt < Tx.FIFO_FULL);
      readMet := false;
      while a < |dq| && !full
        invariant TxValid() && a <= |dq| && full == (txFifoCnt >= Tx.FIFO_FULL)
        invariant Tx.Feeding(q0, TxViews(dq), old(queuePos), queuePos, a, readMet, pushed, txFifoCnt, taken)
        invariant full && a < |dq| ==> readMet || !dq[a].read || a == old(queuePos)
        decreases |dq| - a, !full
      {
        a, readMet, full := FeedNext(a, q0, old(queuePos), readMet, taken);
      }
    }

    /** The transmit interrupt: pushes as much as the FIFO takes. queuePos moves on to the
        first read that is reached, and the interrupt is disabled when the end of the queue
        is reached. The bus has taken so many of the pushed bytes. */
    method FillTxFifo(ghost taken: nat)
      requires TxValid() && Tx.PushedBefore(TxViews(dq), queuePos)
      requires Tx.Balanced(pushed, TxViews(dq), Tx.QueueBytes(TxViews(dq))) && |pushed| == taken + txFifoCnt
      modifies this`txFifoCnt, this`pushed, this`queuePos, this`txEmptyEna, dq`addrSent, dq`position
      ensures TxValid() && Tx.Fed(old(TxViews(dq)), TxViews(dq), old(queuePos), queuePos, taken)
      ensures Tx.Balanced(pushed, TxViews(dq), Tx.QueueBytes(old(TxViews(dq)))) && |pushed| == taken + txFifoCnt
      ensures txFifoCnt >= Tx.FIFO_FULL || Tx.QueuePending(TxViews(dq)) == []
      ensures old(txEmptyEna) && !txEmptyEna ==> Tx.QueuePending(TxViews(dq)) == []
      ensures txEmptyEna ==> old(txEmptyEna) && txFifoCnt >= Tx.FIFO_FULL
    {
      hide TxViews, TxValid, Tx.QueuePending, Tx.PushedBefore, Tx.Fed, Tx.Feeding, Tx.Balanced, Tx.QueueBytes;
      ghost var q0 := TxViews(dq);
      Tx.FeedingStart(q0, queuePos, pushed, txFifoCnt, taken);
      var a, readMet := FeedAll(q0, taken);
      Tx.FeedingEnds(q0, TxViews(dq), old(queuePos), queuePos, a, readMet, pushed, txFifoCnt, taken);
      Tx.FeedingFacts(q0, TxViews(dq), old(queuePos), queuePos, a, readMet, pushed, txFifoCnt, taken);
      txEmptyEna := txEmptyEna && a < |dq|;
    }

    /** All bytes that were pushed are in the FIFO or have been taken from it. */
    ghost predicate Feedable(total: seq<byte>, taken: nat)
      reads this`dq, this`txFifoCnt, this`pushed, this`queuePos, dq`addrSent, dq`position
    {
      && TxValid() && Tx.PushedBefore(TxViews(dq), queuePos) && total == Tx.QueueBytes(TxViews(dq))
      && Tx.Balanced(pushed, TxViews(dq), total) && |pushed| == taken + txFifoCnt
    }

    /** The bus takes some bytes out of the FIFO. */
    method Drain(sent: nat, ghost total: seq<byte>, ghost taken: nat) returns (ghost taken': nat)
      requires Feedable(total, taken)
      modifies this`txFifoCnt
      ensures Feedable(total, taken') && taken' == taken + Tx.Min(sent, old(txFifoCnt))
    {
      hide TxViews, Tx.QueueBytes, Tx.PushedBefore, Tx.Balanced, Tx.AllValid, Distinct;
      taken' := taken + Tx.Min(sent, txFifoCnt);
      txFifoCnt := txFifoCnt - Tx.Min(sent, txFifoCnt);
    }

    /** Another handler moves queuePos, over elements whose bytes have been pushed. */
    method MoveOver(k: nat, ghost total: seq<byte>, ghost taken: nat)
      requires Feedable(total, taken)
      modifies this`queuePos
      ensures Feedable(total, taken)
    {
      hide TxViews, Tx.QueueBytes, Tx.Balanced, Tx.AllValid, Distinct;
      if k <= |dq| && forall j | 0 <= j < k :: dq[j].AllPushed() {
        assert forall j :: 0 <= j < k ==> dq[j].AllPushed() ==> Tx.Pending(TxViews(dq)[j]) == [];
        queuePos := k;
      }
    }

    method FeedAgain(ghost total: seq<byte>, ghost taken: nat)
      requires Feedable(total, taken) && txEmptyEna
      modifies this`txFifoCnt, this`pushed, this`queuePos, this`txEmptyEna, dq`addrSent, dq`position
      ensures Feedable(total, taken) && txFifoCnt <= Tx.FIFO_SIZE
      ensures if txEmptyEna then txFifoCnt >= Tx.FIFO_FULL else pushed == total
    {
      hide TxViews, Tx.QueueBytes, Tx.PushedBefore, Tx.Balanced, Tx.AllValid, Distinct;
      ghost var q := TxViews(dq);
      FillTxFifo(taken);
      Tx.SameQueueBytes(q, TxViews(dq));
      if !txEmptyEna {
        NothingPending(total);
      }
    }

    lemma NothingPending(total: seq<byte>)
      requires Tx.Balanced(pushed, TxViews(dq), total) && Tx.QueuePending(TxViews(dq)) == []
      ensures pushed == total
    {
    }

    /** Any number of transmit interrupts, with any number of bytes leaving the FIFO before each
        of them and any moves of queuePos: what was pushed is a prefix of the bytes of the queue,
        all of it once the interrupt has been disabled, and enough drained bytes disable it. */
    method Feed(drains: seq<nat>, moves: seq<nat>)
      requires TxValid() && Tx.Untouched(TxViews(dq), 0) && pushed == [] && txFifoCnt == 0 && txEmptyEna
      requires |drains| == |moves|
      modifies this`txFifoCnt, this`pushed, this`queuePos, this`txEmptyEna, dq`addrSent, dq`position
      ensures pushed <= Tx.QueueBytes(old(TxViews(dq))) && txFifoCnt <= Tx.FIFO_SIZE
      ensures !txEmptyEna ==> pushed == Tx.QueueBytes(old(TxViews(dq)))
      ensures drains != [] && Tx.Drained(drains[1..]) + Tx.FIFO_FULL > |Tx.QueueBytes(old(TxViews(dq)))| ==> !txEmptyEna
    {
      hide TxViews, TxValid, Tx.QueueBytes, Tx.QueuePending, Tx.Untouched, Feedable;
      ghost var total, taken: nat := Tx.QueueBytes(TxViews(dq)), 0;
      queuePos := 0;
      BeforeFeeding();
      var i := 0;
      while i < |drains| && txEmptyEna
        invariant 0 <= i <= |drains| && Feedable(total, taken)
        invariant i > 0 ==> if txEmptyEna then txFifoCnt >= Tx.FIFO_FULL && taken >= Tx.Drained(drains[1..i]) else pushed == total
        invariant i == 0 ==> txEmptyEna
        decreases |drains| - i
      {
        taken := Drain(drains[i], total, taken);
        MoveOver(moves[i], total, taken);
        FeedAgain(total, taken);
        assert i > 0 ==> drains[1..i + 1][..i - 1] == drains[1..i];
        i := i + 1;
      }
      assert drains[..|drains|] == drains;
      FedSoFar(total, taken);
    }

    lemma BeforeFeeding()
      requires TxValid() && Tx.Untouched(TxViews(dq), 0) && pushed == [] && txFifoCnt == 0 && queuePos == 0
      ensures Feedable(Tx.QueueBytes(TxViews(dq)), 0)
    {
      Tx.PendingInitially(TxViews(dq));
    }

    lemma FedSoFar(total: seq<byte>, taken: nat)
      requires Feedable(total, taken)
      ensures pushed <= total && |pushed| == taken + txFifoCnt && txFifoCnt <= Tx.FIFO_SIZE
    {
      Tx.PushedIsPrefix(pushed, Tx.QueuePending(TxViews(dq)), total);
    }

    // ---- A transfer ----

    ghost function State(): Run
      reads this`dq, this`queuePos, this`bus, this`rest, this`pushed, this`txFifoCnt, this`kept, this`later
      reads dq`startCmdSent, dq`addrCmdSent, dq`dataCmdSent, dq`stopCmdSent, dq`cmdBytesNeeded, dq`addrSent, dq`position
    {
      Run(Views(dq), TxViews(dq), queuePos, bus, rest, pushed, txFifoCnt, kept, later)
    }

    /** In the course of the transfer of q0, between two interrupts. */
    ghost predicate Running(q0: seq<Element>, prompt: bool)
      reads this`dq, this`queuePos, this`bus, this`rest, this`pushed, this`txFifoCnt, this`kept, this`later, this`txEmptyEna
      reads dq`startCmdSent, dq`addrCmdSent, dq`dataCmdSent, dq`stopCmdSent, dq`cmdBytesNeeded, dq`addrSent, dq`position
    {
      && Valid() && TxValid() && Handed(q0) && Going(State(), q0, prompt)
      && (txEmptyEna || Tx.QueuePending(TxViews(dq)) == [])
    }

    /** The same, between two lists. */
    ghost predicate Pausing(q0: seq<Element>, prompt: bool)
      reads this`dq, this`queuePos, this`bus, this`rest, this`pushed, this`txFifoCnt, this`kept, this`later
      reads dq`startCmdSent, dq`addrCmdSent, dq`dataCmdSent, dq`stopCmdSent, dq`cmdBytesNeeded, dq`addrSent, dq`position
    {
      Valid() && TxValid() && Handed(q0) && Paused(State(), q0, prompt)
    }

    /** Fills a list from queuePos on, in the course of the transfer of q0. */
    method FillList(ints: bool, ghost q0: seq<Element>, ghost prompt: bool) returns (cmdIdx: nat)
      requires Pausing(q0, prompt) && Ready(Views(dq)) && (txEmptyEna || Tx.QueuePending(TxViews(dq)) == [])
      modifies this`endDetectEna, this`txEmptyEna, command
      modifies dq`startCmdSent, dq`addrCmdSent, dq`dataCmdSent, dq`stopCmdSent, dq`cmdBytesNeeded
      ensures Valid() && TxValid() && (txEmptyEna || Tx.QueuePending(TxViews(dq)) == [])
      ensures Handed(q0) && Going(State().(rest := Executed(command[..])), q0, prompt)
      ensures cmdIdx <= SLOTS && Launched(Views(dq), queuePos, command[..], cmdIdx) && (cmdIdx == SLOTS ==> endDetectEna)
      ensures QueueWork(Views(dq)) < old(QueueWork(Views(dq)))
    {
      hide Views, TxViews, Paused, Going, Handed, Filled, Ready, Executed, QueueWork, OnlyLastStops, Launched;
      hide AllValid, Distinct, Tx.AllValid, Tx.QueuePending;
      ghost var r := State();
      PausedFacts(r, q0, prompt);
      cmdIdx := FillCmdQueue(ints);
      assert command[..][..cmdIdx] == command[..cmdIdx];
      StartGoing(r, q0, prompt, Views(dq), command[..], cmdIdx);
      assert State() == r.(q := Views(dq));
    }

    /** Starts the peripheral with the command list, of which so many slots were written. */
    method Launch(cmdIdx: nat, ghost q0: seq<Element>, ghost prompt: bool) returns (stopped: bool)
      requires Valid() && TxValid() && (txEmptyEna || Tx.QueuePending(TxViews(dq)) == [])
      requires Handed(q0) && Going(State().(rest := Executed(command[..])), q0, prompt)
      requires cmdIdx <= SLOTS && Launched(Views(dq), queuePos, command[..], cmdIdx) && (cmdIdx == SLOTS ==> endDetectEna)
      modifies this`issued, this`rest
      ensures Running(q0, prompt) && Started(old(issued), issued, rest, stopped)
      ensures Views(dq) == old(Views(dq)) && InSlots(issued, command[..])
      ensures if stopped then AllSent(Views(dq), queuePos) else Ready(Views(dq)) && endDetectEna
    {
      hide Views, TxViews, Going, Handed, Ready, AllValid, Distinct, Tx.AllValid, Tx.QueuePending;
      hide AllSent, Terminated, Stops, Executed, Events;
      ghost var q, tx := Views(dq), TxViews(dq);
      rest, issued := Executed(command[..]), issued + [command[..cmdIdx]];
      assert q == Views(dq) && tx == TxViews(dq);
      assert command[..][..cmdIdx] == command[..cmdIdx];
      stopped := Stops(command[..cmdIdx]);
      if cmdIdx < SLOTS {
        StopsAtEnd(command[..cmdIdx]);
      }
    }

    /** Fills a list and starts the peripheral with it: at first, and on every END interrupt. */
    method StartList(ints: bool, ghost q0: seq<Element>, ghost prompt: bool) returns (stopped: bool)
      requires Pausing(q0, prompt) && Ready(Views(dq)) && (txEmptyEna || Tx.QueuePending(TxViews(dq)) == [])
      modifies this`endDetectEna, this`txEmptyEna, this`issued, this`rest, command
      modifies dq`startCmdSent, dq`addrCmdSent, dq`dataCmdSent, dq`stopCmdSent, dq`cmdBytesNeeded
      ensures Running(q0, prompt) && Started(old(issued), issued, rest, stopped)
      ensures InSlots(issued, command[..])
      ensures if stopped then AllSent(Views(dq), queuePos) else Ready(Views(dq)) && endDetectEna
      ensures QueueWork(Views(dq)) < old(QueueWork(Views(dq)))
    {
      hide *;
      endDetectEna := false;
      var cmdIdx := FillList(ints, q0, prompt);
      stopped := Launch(cmdIdx, q0, prompt);
    }

    /** The transmit interrupt in the course of a transfer. What is kept of the traffic, and what
        comes later, changes when queuePos moves. */
    method FeedRun(ghost q0: seq<Element>, ghost prompt: bool) returns (ghost r': Run)
      requires Running(q0, prompt) && txEmptyEna
      modifies this`txFifoCnt, this`pushed, this`queuePos, this`txEmptyEna, dq`addrSent, dq`position
      ensures Valid() && TxValid() && (txEmptyEna || Tx.QueuePending(TxViews(dq)) == [])
      ensures Going(r', q0, prompt) && r' == State().(kept := r'.kept, later := r'.later) && queuePos >= old(queuePos)
      ensures rest == [] ==> Paused(r', q0, prompt)
      ensures rest != [] && rest[0].ByteOut? ==> txFifoCnt > 0
      ensures txFifoCnt >= 31 || Tx.QueuePending(TxViews(dq)) == []
    {
      hide Views, TxViews, Valid, TxValid, Going, Paused, Handed, Tx.QueuePending, Tx.QueueBytes, Tx.PushedBefore, Tx.Balanced, Tx.Fed;
      ghost var r := State();
      GoingFacts(r, q0, prompt);
      FillTxFifo(Outs(bus));
      r' := FedRun(r, q0, prompt, TxViews(dq), queuePos, pushed, txFifoCnt);
      assert Views(dq) == r.q;
    }

    ghost method Remember(r': Run)
      modifies this`kept, this`later
      ensures State() == old(State()).(kept := r'.kept, later := r'.later)
      ensures Valid() == old(Valid()) && TxValid() == old(TxValid()) && TxViews(dq) == old(TxViews(dq))
    {
      hide Views, TxViews, Valid, TxValid;
      kept, later := r'.kept, r'.later;
    }

    method TxInterrupt(ghost q0: seq<Element>, ghost prompt: bool)
      requires Running(q0, prompt) && txEmptyEna
      modifies this`txFifoCnt, this`pushed, this`queuePos, this`txEmptyEna, this`kept, this`later, dq`addrSent, dq`position
      ensures Running(q0, prompt) && queuePos >= old(queuePos)
      ensures rest == [] ==> Pausing(q0, prompt)
      ensures rest != [] && rest[0].ByteOut? ==> txFifoCnt > 0
      ensures txFifoCnt >= 31 || Tx.QueuePending(TxViews(dq)) == []
    {
      hide Views, TxViews, Valid, TxValid, Going, Paused, Handed, Tx.QueuePending;
      ghost var r' := FeedRun(q0, prompt);
      Remember(r');
    }

    /** The interrupt is served if it is due and enabled. At the end of a list, with a prompt
        interrupt, all is settled that a refill relies on. */
    method ServeTx(due: bool, ghost q0: seq<Element>, ghost prompt: bool)
      requires Running(q0, prompt) && (prompt ==> due)
      modifies this`txFifoCnt, this`pushed, this`queuePos, this`txEmptyEna, this`kept, this`later, dq`addrSent, dq`position
      ensures Running(q0, prompt) && queuePos >= old(queuePos)
      ensures rest == [] ==> Pausing(q0, prompt)
      ensures txEmptyEna || Tx.QueuePending(TxViews(dq)) == []
    {
      hide Views, TxViews, Valid, TxValid, Going, Paused, Handed, Tx.QueuePending;
      if due && txEmptyEna {
        TxInterrupt(q0, prompt);
      } else if rest == [] {
        IdlePaused(State(), q0, prompt);
      }
    }

    /** The peripheral puts one event on the bus. */
    method Execute(ghost q0: seq<Element>, ghost prompt: bool)
      requires Running(q0, prompt) && rest != [] && (rest[0].ByteOut? ==> txFifoCnt > 0)
      modifies this`txFifoCnt, this`bus, this`rest
      ensures Running(q0, prompt)
      ensures bus == old(bus) + [old(rest)[0]] && rest == old(rest)[1..]
    {
      hide Views, TxViews, Going, Handed, Tx.QueuePending;
      ghost var r := State();
      ExecuteGoing(r, q0, prompt);
      if rest[0].ByteOut? {
        txFifoCnt := txFifoCnt - 1;
      }
      bus, rest := bus + [rest[0]], rest[1..];
      assert State() == AfterEvent(r);
    }

    /** The element that the n-th byte read belongs to. */
    method ReadAt(n: nat) returns (k: nat)
      requires n > 0
      ensures k == Reading(Views(dq), n)
    {
      hide Views;
      ghost var q := Views(dq);
      k := 0;
      var m: nat := n;
      while k < |dq| && !(dq[k].read && m <= |dq[k].data|)
        invariant k <= |dq| && Reading(q, n) == k + Reading(q[k..], m)
      {
        assert q[k] == dq[k].View() && q[k..][1..] == q[k + 1..];
        if dq[k].read {
          m := m - |dq[k].data|;
        }
        k := k + 1;
      }
    }

    method AllDone(i: nat, k: nat) returns (done: bool)
      requires TxValid() && i <= k <= |dq| && Alike(Views(dq), TxViews(dq))
      ensures done <==> ServedTo(Views(dq), i, k) && Tx.PushedFrom(TxViews(dq), i, k)
    {
      hide Views, TxViews, Served, Tx.Pending, Distinct;
      ghost var q, tx := Views(dq), TxViews(dq);
      var j := i;
      done := true;
      while j < k && done
        invariant i <= j <= k && (done ==> ServedTo(q, i, j) && Tx.PushedFrom(tx, i, j))
        invariant !done ==> i < j && !(Served(q[j - 1]) && Tx.Pending(tx[j - 1]) == [])
      {
        assert q[j] == dq[j].View() && tx[j] == dq[j].TxView() && tx[j].Valid();
        dq[j].DoneMeans();
        done := dq[j].Done();
        j := j + 1;
      }
    }

    method MoveTo(k: nat, ghost q0: seq<Element>, ghost prompt: bool)
      requires Running(q0, prompt) && Ins(bus) > 0 && k == Reading(q0, Ins(bus)) && queuePos <= k < |q0|
      requires ServedTo(Views(dq), queuePos, k) && Tx.PushedFrom(TxViews(dq), queuePos, k)
      modifies this`queuePos
      ensures Running(q0, prompt) && queuePos == k
    {
      hide Views, TxViews, Going, Handed, Tx.QueuePending, Reading, ServedTo, Tx.PushedFrom, AllValid, Tx.AllValid, Distinct;
      ghost var r := State();
      MoveReads(r, q0, prompt, k);
      queuePos := k;
      assert State() == r.(pos := k);
    }

    /** The receive interrupt moves queuePos to the read that the last byte belongs to. Nothing
        hinders it unless commands were lost. */
    method RxInterrupt(ghost q0: seq<Element>, ghost prompt: bool)
      requires Running(q0, prompt)
      modifies this`queuePos
      ensures Running(q0, prompt) && queuePos >= old(queuePos)
      ensures queuePos != old(queuePos) ==> Ins(bus) > 0 && BringsByte(q0, queuePos, Ins(bus))
      ensures Safe(q0) && Ins(bus) > 0 ==>
        exists k: nat :: BringsByte(q0, k, Ins(bus)) && queuePos == if k > old(queuePos) then k else old(queuePos)
    {
      hide Views, TxViews, Valid, TxValid, Going, Handed, Tx.QueuePending, Reading, ServedTo, Safe, BringsByte;
      hide Tx.PushedFrom, Tx.PushedBefore;
      if Ins(bus) > 0 {
        var k := ReadAt(Ins(bus));
        GoingReads(State(), q0, prompt, k);
        if queuePos < k < |dq| {
          var done := AllDone(queuePos, k);
          if done {
            MoveTo(k, q0, prompt);
          }
        }
      }
    }

    /** One event, with the interrupts that come before it and behind it. SCL is held low while
        the FIFO has no byte to send, so the transmit interrupt cannot fail to come. */
    method BusStep(txDue: bool, rxDue: bool, ghost q0: seq<Element>, ghost prompt: bool)
      requires Running(q0, prompt) && rest != [] && (prompt ==> txDue)
      modifies this`txFifoCnt, this`pushed, this`queuePos, this`txEmptyEna, this`kept, this`later, this`bus, this`rest
      modifies dq`addrSent, dq`position
      ensures Running(q0, prompt) && queuePos >= old(queuePos)
      ensures bus == old(bus) + [old(rest)[0]] && rest == old(rest)[1..]
    {
      hide Views, TxViews, Valid, TxValid, Going, Paused, Handed, Tx.QueuePending, Safe, Reading;
      ServeTx(txDue, q0, prompt);
      if rest[0].ByteOut? && txFifoCnt == 0 {
        GoingFacts(State(), q0, prompt);
        TxInterrupt(q0, prompt);
      }
      Execute(q0, prompt);
      if rxDue {
        RxInterrupt(q0, prompt);
      }
    }

    /** The peripheral works off its list. tx and rx tell before which step the interrupts are
        due, counting from n. */
    method RunList(tx: nat -> bool, rx: nat -> bool, n0: nat, ghost q0: seq<Element>, ghost prompt: bool) returns (n: nat)
      requires Running(q0, prompt) && (prompt ==> forall k :: tx(k))
      modifies this`txFifoCnt, this`pushed, this`queuePos, this`txEmptyEna, this`kept, this`later, this`bus, this`rest
      modifies dq`addrSent, dq`position
      ensures Pausing(q0, prompt) && queuePos >= old(queuePos)
      ensures txEmptyEna || Tx.QueuePending(TxViews(dq)) == []
      ensures bus == old(bus + rest) && Views(dq) == old(Views(dq))
    {
      hide *;
      n := n0;
      while rest != []
        invariant Running(q0, prompt) && queuePos >= old(queuePos)
        invariant bus + rest == old(bus + rest)
        decreases |rest|
      {
        ghost var b, r := bus, rest;
        BusStep(tx(n), rx(n), q0, prompt);
        assert b + [r[0]] + r[1..] == b + r;
        n := n + 1;
      }
      ServeTx(tx(n), q0, prompt);
      n := n + 1;
    }

    /** One list: filled, started and worked off. */
    method ListRound(ints: bool, tx: nat -> bool, rx: nat -> bool, n0: nat, ghost q0: seq<Element>, ghost prompt: bool)
      returns (stopped: bool, n: nat)
      requires Pausing(q0, prompt) && Ready(Views(dq)) && (txEmptyEna || Tx.QueuePending(TxViews(dq)) == [])
      requires Issued(issued, false) && bus == ListEvents(issued) && (prompt ==> forall k :: tx(k))
      modifies this`endDetectEna, this`issued, command
      modifies this`txFifoCnt, this`pushed, this`queuePos, this`txEmptyEna, this`kept, this`later, this`bus, this`rest
      modifies dq`startCmdSent, dq`addrCmdSent, dq`dataCmdSent, dq`stopCmdSent, dq`cmdBytesNeeded, dq`addrSent, dq`position
      ensures Pausing(q0, prompt) && (txEmptyEna || Tx.QueuePending(TxViews(dq)) == [])
      ensures Issued(issued, stopped) && bus == ListEvents(issued)
      ensures InSlots(issued, command[..])
      ensures if stopped then AllSent(Views(dq), queuePos) else Ready(Views(dq)) && endDetectEna
      ensures QueueWork(Views(dq)) < old(QueueWork(Views(dq)))
    {
      hide *;
      stopped := StartList(ints, q0, prompt);
      StartedIssued(old(issued), issued, rest, stopped);
      ghost var q, pos := Views(dq), queuePos;
      n := RunList(tx, rx, n0, q0, prompt);
      AllSentFrom(q, pos, queuePos);
    }

    /** The state before a transfer: the FIFO is empty and the transmit interrupt enabled. */
    method Reset(ghost prompt: bool)
      requires Valid() && TxValid() && Handed(Views(dq)) && Tx.Untouched(TxViews(dq), 0)
      modifies this`txFifoCnt, this`pushed, this`queuePos, this`txEmptyEna, this`kept, this`later, this`bus, this`rest, this`issued
      ensures Pausing(Views(dq), prompt) && txEmptyEna && issued == [] && bus == []
      ensures Views(dq) == old(Views(dq)) && TxViews(dq) == old(TxViews(dq))
    {
      hide Views, TxViews, Paused, Distinct, AllValid, Tx.AllValid, Tx.Untouched, QueueTraffic;
      ghost var q, t := Views(dq), TxViews(dq);
      ViewsAlike(dq);
      Start(q, t, prompt);
      queuePos, txFifoCnt, pushed, bus, rest, issued, txEmptyEna := 0, 0, [], [], [], [], true;
      kept, later := [], QueueTraffic(q);
      assert State() == Run(q, t, 0, [], [], [], 0, [], QueueTraffic(q));
    }

    lemma Ended(q0: seq<Element>, t0: seq<Tx.TxElement>, prompt: bool)
      requires Pausing(q0, prompt) && AllSent(Views(dq), queuePos) && Alike(q0, t0) && t0 == AsQueued(dq)
      ensures Cut(QueueTraffic(q0), bus)
      ensures pushed <= Tx.QueueBytes(t0) && Outs(bus) <= |pushed|
      ensures Safe(q0) ==> bus == QueueTraffic(q0) && Wire.OnWire(bus, pushed) == Wire.QueueWire(q0, t0)
      ensures !Safe(q0) && prompt ==> Lossy(q0, bus)
    {
      hide Views, TxViews, Valid, TxValid, Paused, AllSent, Safe, Lossy, Cut, Outs, Alike;
      QueuedBytes(dq);
      TransferEnds(State(), q0, prompt, t0);
      Wire.QueueOnWire(q0, t0);
    }

    /** A complete transfer: the first list is filled before the start, a new one on every END
        interrupt, until STOP has been executed. tx and rx say when the other two interrupts are
        due. If the writes in front of the first read keep up, every schedule puts exactly the
        traffic of the queue on the bus, each transaction with its own address and payload. If
        they do not, a prompt transmit interrupt loses commands. */
    method Transfer(tx: nat -> bool, rx: nat -> bool)
      requires Valid() && TxValid() && Handed(Views(dq)) && Tx.Untouched(TxViews(dq), 0)
      modifies this`endDetectEna, this`issued, command
      modifies this`txFifoCnt, this`pushed, this`queuePos, this`txEmptyEna, this`kept, this`later, this`bus, this`rest
      modifies dq`startCmdSent, dq`addrCmdSent, dq`dataCmdSent, dq`stopCmdSent, dq`cmdBytesNeeded, dq`addrSent, dq`position
      ensures bus == ListEvents(issued) && Issued(issued, true)
      ensures InSlots(issued, command[..]) && AllSent(Views(dq), queuePos)
      ensures Cut(QueueTraffic(old(Views(dq))), bus)
      ensures pushed <= Tx.QueueBytes(old(TxViews(dq))) && Outs(bus) <= |pushed|
      ensures Safe(old(Views(dq))) ==>
        bus == QueueTraffic(old(Views(dq))) && Wire.OnWire(bus, pushed) == Wire.QueueWire(old(Views(dq)), old(TxViews(dq)))
      ensures !Safe(old(Views(dq))) && (forall n :: tx(n)) ==> Lossy(old(Views(dq)), bus)
    {
      hide *;
      ghost var q0, t0, prompt := Views(dq), TxViews(dq), forall n :: tx(n);
      QueuedViews(dq);
      Reset(prompt);
      NothingIssued();
      var stopped, n := ListRound(false, tx, rx, 0, q0, prompt);
      while !stopped
        invariant Pausing(q0, prompt) && (txEmptyEna || Tx.QueuePending(TxViews(dq)) == [])
        invariant Issued(issued, stopped) && bus == ListEvents(issued)
        invariant InSlots(issued, command[..])
        invariant if stopped then AllSent(Views(dq), queuePos) else Ready(Views(dq)) && endDetectEna
        decreases QueueWork(Views(dq)), !stopped
      {
        stopped, n := ListRound(true, tx, rx, n, q0, prompt);
      }
      Ended(q0, t0, prompt);
    }
  }
}
