/** What a device on the bus sees: the events of a transfer together with the bytes that the
    peripheral takes out of its transmit FIFO for them. */
module I2cWire {
  import opened Sequences
  import opened I2cCommands
  import opened I2cFilling
  import opened I2cPacing
  import opened I2cTransfer
  import Tx = I2cTxBytes

  datatype Signal = Start | Out(b: byte) | In(nak: bool) | Stop

  function Seen(e: Event, bytes: seq<byte>): Signal
    requires e.ByteOut? ==> bytes != []
  {
    match e
    case StartBit => Start
    case ByteOut(_) => Out(bytes[0])
    case ByteIn(nak) => In(nak)
    case StopBit => Signal.Stop
  }

  function Unread(e: Event, bytes: seq<byte>): seq<byte>
    requires e.ByteOut? ==> bytes != []
  {
    if e.ByteOut? then bytes[1..] else bytes
  }

  /** Every byte that is sent is the next one of the FIFO. */
  function OnWire(es: seq<Event>, bytes: seq<byte>): (w: seq<Signal>)
    requires Outs(es) <= |bytes|
    ensures |w| == |es|
  {
    if es == [] then []
    else [Seen(es[0], bytes)] + OnWire(es[1..], Unread(es[0], bytes))
  }

  function Sent(bytes: seq<byte>): (w: seq<Signal>)
    ensures |w| == |bytes| && forall i :: 0 <= i < |w| ==> w[i] == Out(bytes[i])
  {
    seq(|bytes|, i requires 0 <= i < |bytes| => Out(bytes[i]))
  }

  /** The bytes of a read: all but the last one are acknowledged. */
  function Taken(n: nat): (w: seq<Signal>)
    ensures |w| == n && forall i :: 0 <= i < n ==> w[i] == In(i == n - 1)
  {
    seq(n, i => In(i == n - 1))
  }

  /** One element as a device sees it: its address, and its payload in either direction. */
  function Transaction(e: Element, t: Tx.TxElement): seq<Signal> {
    [Start] + Sent(Tx.AddressBytes(t)) + (if t.read then Taken(|t.data|) else Sent(t.data))
    + if e.stop then [Signal.Stop] else []
  }

  function QueueWire(q: seq<Element>, tx: seq<Tx.TxElement>): seq<Signal>
    requires |q| == |tx|
  {
    if q == [] then [] else Transaction(q[0], tx[0]) + QueueWire(q[1..], tx[1..])
  }

  lemma OnWireStep(e: Event, es: seq<Event>, x: seq<byte>, y: seq<byte>)
    requires (e.ByteOut? ==> x != []) && Outs(es) <= |Unread(e, x) + y|
    ensures Outs([e] + es) <= |x + y| && Seen(e, x + y) == Seen(e, x)
    ensures OnWire([e] + es, x + y) == [Seen(e, x)] + OnWire(es, Unread(e, x) + y)
  {
    assert ([e] + es)[1..] == es;
    assert Unread(e, x + y) == Unread(e, x) + y;
  }

  lemma OutsStep(a: seq<Event>, x: seq<byte>)
    requires a != [] && Outs(a) == |x|
    ensures (a[0].ByteOut? ==> x != []) && Outs(a[1..]) == |Unread(a[0], x)|
  {
  }

  lemma {:induction false} OnWireConcat(a: seq<Event>, b: seq<Event>, x: seq<byte>, y: seq<byte>)
    requires Outs(a) == |x| && Outs(b) <= |y|
    ensures Outs(a + b) <= |x + y|
    ensures OnWire(a + b, x + y) == OnWire(a, x) + OnWire(b, y)
  {
    hide Outs, Seen, Unread;
    OutsConcat(a, b);
    if a == [] {
      assert a + b == b && x + y == y;
    } else {
      OutsStep(a, x);
      OnWireConcat(a[1..], b, Unread(a[0], x), y);
      OutsConcat(a[1..], b);
      OnWireBoth(a[0], a[1..], b, x, y);
      assert a == [a[0]] + a[1..];
    }
  }

  lemma OnWireBoth(e: Event, a: seq<Event>, b: seq<Event>, x: seq<byte>, y: seq<byte>)
    requires (e.ByteOut? ==> x != []) && Outs(a) == |Unread(e, x)|
    requires Outs(b) <= |y| && Outs(a + b) <= |Unread(e, x) + y|
    requires OnWire(a + b, Unread(e, x) + y) == OnWire(a, Unread(e, x)) + OnWire(b, y)
    ensures Outs([e] + a) <= |x| && Outs([e] + a + b) <= |x + y|
    ensures OnWire([e] + a + b, x + y) == OnWire([e] + a, x) + OnWire(b, y)
  {
    hide Outs, OnWire, Seen, Unread;
    OnWireStep(e, a + b, x, y);
    OnWireStep(e, a, x, []);
    assert x + [] == x && Unread(e, x) + [] == Unread(e, x) && [e] + a + b == [e] + (a + b);
  }

  lemma {:induction false} SentOnWire(x: seq<byte>)
    ensures Outs(Repeat(ByteOut(true), |x|)) == |x| && OnWire(Repeat(ByteOut(true), |x|), x) == Sent(x)
  {
    OutsRepeat(ByteOut(true), |x|);
    if x != [] {
      assert Repeat(ByteOut(true), |x|)[1..] == Repeat(ByteOut(true), |x| - 1);
      SentOnWire(x[1..]);
      assert Sent(x) == [Out(x[0])] + Sent(x[1..]);
    }
  }

  lemma {:induction false} AckedOnWire(n: nat)
    ensures Outs(Repeat(ByteIn(false), n)) == 0 && OnWire(Repeat(ByteIn(false), n), []) == seq(n, _ => In(false))
  {
    OutsRepeat(ByteIn(false), n);
    if n > 0 {
      assert Repeat(ByteIn(false), n)[1..] == Repeat(ByteIn(false), n - 1);
      AckedOnWire(n - 1);
      assert seq(n, _ => In(false)) == [In(false)] + seq(n - 1, _ => In(false));
    }
  }

  lemma TakenOnWire(n: nat)
    ensures Outs(DataEvents(true, n)) == 0 && OnWire(DataEvents(true, n), []) == Taken(n)
  {
    OutsData(true, n);
    if n > 0 {
      AckedOnWire(n - 1);
      OnWireConcat(Repeat(ByteIn(false), n - 1), [ByteIn(true)], [], []);
      assert OnWire([ByteIn(true)], []) == [In(true)];
      assert Taken(n) == seq(n - 1, _ => In(false)) + [In(true)];
    }
  }

  /** The traffic of an element carries its own bytes. */
  lemma ElementOnWire(e: Element, t: Tx.TxElement)
    requires Alike([e], [t])
    ensures Outs(Traffic(e)) == |Tx.Bytes(t)| && OnWire(Traffic(e), Tx.Bytes(t)) == Transaction(e, t)
  {
    var addr, data := Repeat(ByteOut(true), e.addrReq), DataEvents(e.read, e.length);
    var stop := if e.stop then [StopBit] else [];
    var x := Tx.AddressBytes(t);
    var y := if t.read then [] else t.data;
    assert e == [e][0] && t == [t][0] && |x| == e.addrReq;
    SentOnWire(x);
    if e.read {
      TakenOnWire(e.length);
    } else {
      SentOnWire(t.data);
    }
    OutsFour([StartBit], addr, data, stop);
    OutsConcat([StartBit] + addr + data, stop);
    assert [] + x == x && x + y + [] == x + y;
    OnWireConcat([StartBit], addr, [], x);
    OnWireConcat([StartBit] + addr, data, x, y);
    OnWireConcat([StartBit] + addr + data, stop, x + y, []);
    assert OnWire([StartBit], []) == [Start];
    assert OnWire(stop, []) == if e.stop then [Signal.Stop] else [];
  }

  /** The traffic of a queue carries every address and every payload in its own transaction. */
  lemma {:induction false} QueueOnWire(q: seq<Element>, tx: seq<Tx.TxElement>)
    requires Alike(q, tx)
    ensures Outs(QueueTraffic(q)) == |Tx.QueueBytes(tx)|
    ensures OnWire(QueueTraffic(q), Tx.QueueBytes(tx)) == QueueWire(q, tx)
  {
    TrafficBytes(q, tx);
    if q != [] {
      assert Alike([q[0]], [tx[0]]);
      ElementOnWire(q[0], tx[0]);
      QueueOnWire(q[1..], tx[1..]);
      hide Traffic, Tx.Bytes, Transaction;
      OnWireConcat(Traffic(q[0]), QueueTraffic(q[1..]), Tx.Bytes(tx[0]), Tx.QueueBytes(tx[1..]));
    }
  }

  lemma NextOnWire(a: seq<Event>, out: Event, c: seq<Event>, bytes: seq<byte>)
    requires out.ByteOut? && Outs(a) < Outs(a + [StartBit, out] + c) <= |bytes|
    ensures |OnWire(a + [StartBit, out] + c, bytes)| > |a| + 1
    ensures OnWire(a + [StartBit, out] + c, bytes)[|a| + 1] == Out(bytes[Outs(a)])
  {
    var es := [StartBit, out] + c;
    var x, y := bytes[..Outs(a)], bytes[Outs(a)..];
    assert a + [StartBit, out] + c == a + es && x + y == bytes;
    OutsConcat(a, es);
    OnWireConcat(a, es, x, y);
    assert es[1..] == [out] + c;
    assert OnWire(es, y)[1] == OnWire(es[1..], y)[0] == Out(y[0]);
  }

  /** When writes have been overtaken, the first read is addressed with a byte that belongs to
      one of them. */
  lemma WrongAddress(q0: seq<Element>, tx: seq<Tx.TxElement>, bus: seq<Event>, pushed: seq<byte>)
    requires AllInitial(q0) && Alike(q0, tx) && FirstRead(q0) < |q0|
    requires Writes(q0[..FirstRead(q0)]) && !KeepsUp(q0[..FirstRead(q0)]) && Torn(q0, bus)
    requires pushed <= Tx.QueueBytes(tx) && Outs(bus) <= |pushed|
    ensures var f := FirstRead(q0);
            var n := |QueueTraffic(q0[..f])| - |QueuePending(Overtaken(q0[..f]))|;
            var k := Tx.BytesTo(tx, f) - AllLeft(Overtaken(q0[..f]));
            && 0 <= n && n + 1 < |bus| && bus[n] == StartBit
            && 0 <= k < Tx.BytesTo(tx, f) <= |Tx.QueueBytes(tx)|
            && OnWire(bus, pushed)[n + 1] == Out(Tx.QueueBytes(tx)[k])
  {
    hide KeepsUp, Alike, AllInitial, QueueTraffic, QueuePending, Writes, AllLeft, Outs, OnWire, Tx.QueueBytes, Tx.BytesTo;
    var f := FirstRead(q0);
    var front, rest, lost := QueueTraffic(q0[..f]), QueueTraffic(q0[f..]), QueuePending(Overtaken(q0[..f]));
    var n := |front| - |lost|;
    TornSizes(q0, tx, f, Overtaken(q0[..f]));
    TornByte(front[..n], front[n..], rest);
    assert front == front[..n] + front[n..];
    NextOnWire(front[..n], ByteOut(true), rest[2..], pushed);
  }

  lemma TornSizes(q0: seq<Element>, tx: seq<Tx.TxElement>, f: nat, m: seq<Element>)
    requires AllInitial(q0) && Alike(q0, tx) && f < |q0|
    ensures Tx.BytesTo(tx, f) == Outs(QueueTraffic(q0[..f])) && Outs(QueuePending(m)) == AllLeft(m)
    ensures |Tx.QueueBytes(tx)| == Outs(QueueTraffic(q0[..f])) + Outs(QueueTraffic(q0[f..]))
    ensures var t := QueueTraffic(q0[f..]); |t| >= 2 && t[..2] == [StartBit, ByteOut(true)] && Outs(t) > 0
  {
    FrontBytes(q0, tx, f);
    TrafficBytes(q0, tx);
    QueuePendingOuts(m);
    BeginsWithHeader(q0[f..]);
    hide Outs, QueueTraffic, Tx.QueueBytes, Tx.BytesTo;
    OutsConcat(QueueTraffic(q0[..f]), QueueTraffic(q0[f..]));
  }

  lemma TornByte(kept: seq<Event>, lost: seq<Event>, rest: seq<Event>)
    requires |rest| >= 2 && rest[..2] == [StartBit, ByteOut(true)]
    ensures Outs(kept + lost) == Outs(kept) + Outs(lost) && Outs(kept + rest) == Outs(kept) + Outs(rest)
    ensures kept + rest == kept + [StartBit, ByteOut(true)] + rest[2..]
  {
    hide Outs;
    OutsConcat(kept, lost);
    OutsConcat(kept, rest);
    assert rest == rest[..2] + rest[2..];
  }

  lemma BeginsWithHeader(q: seq<Element>)
    requires q != [] && q[0].Initial()
    ensures var t := QueueTraffic(q); |t| >= 2 && t[..2] == [StartBit, ByteOut(true)] && Outs(t) > 0
  {
    var t := QueueTraffic(q);
    assert t[..2] == [StartBit, ByteOut(true)];
    assert t == [StartBit, ByteOut(true)] + t[2..];
    OutsConcat([StartBit, ByteOut(true)], t[2..]);
  }
}
