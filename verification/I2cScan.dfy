/** A transfer that loses commands: a number of writes without payload, as in a search for
    devices, in one queue with a read. */
module I2cScan {
  import opened Sequences
  import opened I2cCommands
  import opened I2cFilling
  import opened I2cPacing
  import opened I2cTransfer
  import opened I2cMaster
  import Wire = I2cWire
  import Tx = I2cTxBytes

  /** A write without payload: START and address. */
  const PROBE := Element(false, false, 0, 1, false, false, false, false, 0)
  const PROBED := Element(false, false, 0, 1, true, true, true, true, 0)

  function Probes(done: nat, left: nat): seq<Element> {
    Fill(done, PROBED) + Fill(left, PROBE)
  }

  lemma ProbesFirst(done: nat, left: nat)
    ensures Probes(0, 0) == []
    ensures done > 0 ==> Probes(done, left) == [PROBED] + Probes(done - 1, left) && Probes(done, left)[1..] == Probes(done - 1, left)
    ensures done == 0 < left ==> Probes(0, left) == [PROBE] + Probes(0, left - 1) && Probes(0, left)[1..] == Probes(0, left - 1)
  {
  }

  lemma SpendProbe(room: nat)
    requires room <= 15 && room % 2 == 1
    ensures Spend(PROBE, room) == if room >= 3 then Spent(PROBED, room - 2) else Spent(PROBE, 0)
  {
  }

  /** A list takes as many of these as there are pairs of slots. */
  lemma {:induction false} ProbeList(done: nat, left: nat, room: nat)
    requires room <= 15 && room % 2 == 1
    ensures var n := if room / 2 < left then room / 2 else left;
            AfterList(Probes(done, left), room) == Probes(done + n, left - n)
    decreases done, left
  {
    hide Spend, Probes;
    var n := if room / 2 < left then room / 2 else left;
    ProbesFirst(done, left);
    ProbesFirst(done + n, left - n);
    SpendProbe(room);
    if done > 0 {
      ProbeList(done - 1, left, room);
    } else if left > 0 && room >= 3 {
      ProbeList(0, left - 1, room - 2);
    }
  }

  lemma {:induction false} ProbesLeft(done: nat, left: nat)
    ensures Writes(Probes(done, left)) && AllLeft(Probes(done, left)) == left
    decreases done, left
  {
    var w := Probes(done, left);
    if done > 0 {
      assert w[1..] == Probes(done - 1, left) && w[0] == PROBED;
      ProbesLeft(done - 1, left);
    } else if left > 0 {
      assert w[1..] == Probes(0, left - 1) && w[0] == PROBE;
      ProbesLeft(0, left - 1);
    }
  }

  /** Seven of them keep up, more do not. */
  lemma {:induction false} ProbesKeepUp(done: nat, left: nat)
    ensures Writes(Probes(done, left)) && (KeepsUp(Probes(done, left)) <==> left <= 7)
    decreases left
  {
    var n := if 7 < left then 7 else left;
    ProbesLeft(done, left);
    ProbesLeft(done + n, left - n);
    ProbeList(done, left, 15);
    if left > 0 {
      ProbesKeepUp(done + n, left - n);
    }
  }

  function Headers(n: nat): (es: seq<Event>)
    ensures |es| == 2 * n
  {
    if n == 0 then [] else [StartBit, ByteOut(true)] + Headers(n - 1)
  }

  lemma {:induction false} HeadersFront(n: nat, k: nat)
    requires k <= n
    ensures Headers(n)[..2 * k] == Headers(k)
  {
    if k > 0 {
      HeadersFront(n - 1, k - 1);
      assert Headers(n)[..2 * k] == [StartBit, ByteOut(true)] + Headers(n - 1)[..2 * (k - 1)];
    }
  }

  lemma {:induction false} ProbesPending(done: nat, left: nat)
    ensures QueuePending(Probes(done, left)) == Headers(left)
    decreases done, left
  {
    ProbesFirst(done, left);
    assert Pending(PROBED) == [] && Pending(PROBE) == [StartBit, ByteOut(true)];
    hide Probes, Pending;
    if done > 0 {
      ProbesPending(done - 1, left);
    } else if left > 0 {
      ProbesPending(0, left - 1);
    }
  }

  function TxProbes(devices: seq<nat>, n: nat): (q: seq<Tx.TxElement>)
    requires n <= |devices|
    ensures |q| == n
  {
    seq(n, i requires 0 <= i < n => TxQueued(false, devices[i], []))
  }

  lemma {:induction false} ProbeBytes(devices: seq<nat>)
    requires forall d <- devices :: d < 128
    ensures var bytes := Tx.QueueBytes(TxProbes(devices, |devices|));
            |bytes| == |devices| && forall i :: 0 <= i < |devices| ==> bytes[i] == 2 * devices[i]
  {
    if devices != [] {
      assert devices[0] in devices && forall d <- devices[1..] :: d in devices;
      var q := TxProbes(devices, |devices|);
      assert q[1..] == TxProbes(devices[1..], |devices| - 1);
      assert Tx.Bytes(q[0]) == [2 * devices[0]];
      ProbeBytes(devices[1..]);
    }
  }

  function Scan(n: nat): seq<Element> {
    Probes(0, n) + [Queued(true, 0, [0], true)]
  }

  const READ_TRAFFIC := [StartBit, ByteOut(true), ByteIn(true), StopBit]

  lemma ScanQueue(n: nat)
    requires n >= 8
    ensures var q := Scan(n);
            && Handed(q) && FirstRead(q) == n && q[..n] == Probes(0, n) && !Safe(q)
            && Writes(q[..n]) && !KeepsUp(q[..n]) && QueueTraffic(q[n..]) == READ_TRAFFIC
  {
    var q := Scan(n);
    FirstReadIs(q, n);
    assert q[..n] == Probes(0, n);
    ProbesKeepUp(0, n);
    var read := q[n..];
    assert read == [Queued(true, 0, [0], true)] && read[1..] == [];
    assert DataEvents(true, 1) == [ByteIn(true)] && Repeat(ByteOut(true), 1) == [ByteOut(true)];
  }

  lemma ScanOvertaken(n: nat)
    requires 8 <= n <= 37
    ensures Writes(Probes(0, n)) && !KeepsUp(Probes(0, n))
    ensures Overtaken(Probes(0, n)) == Probes(7, n - 7) && AllLeft(Probes(7, n - 7)) == n - 7
  {
    ProbesKeepUp(0, n);
    ProbeList(0, n, 15);
    ProbesLeft(7, n - 7);
  }

  lemma ProbesTraffic(n: nat)
    ensures QueueTraffic(Probes(0, n)) == Headers(n)
  {
    ProbesPending(0, n);
    assert forall e <- Probes(0, n) :: e.Initial();
    PendingInitially(Probes(0, n));
  }

  lemma ScanSizes(n: nat)
    requires 8 <= n <= 37
    ensures var q := Scan(n);
            && AllInitial(q) && FirstRead(q) == n < |q| && Writes(q[..n]) && !KeepsUp(q[..n])
            && QueueTraffic(q[..n]) == Headers(n) && QueuePending(Overtaken(q[..n])) == Headers(n - 7)
            && AllLeft(Overtaken(q[..n])) == n - 7
  {
    ScanQueue(n);
    hide Probes, KeepsUp, Overtaken, QueuePending, QueueTraffic, FirstRead, Writes, Scan, AllLeft, AllInitial;
    ScanOvertaken(n);
    ProbesPending(7, n - 7);
    ProbesTraffic(n);
  }

  /** What is on the bus after the transfer of such a queue: only the first seven devices are
      addressed before the read. */
  lemma ScanLoses(n: nat, bus: seq<Event>)
    requires 8 <= n <= 37
    ensures Handed(Scan(n)) && !Safe(Scan(n))
    ensures Lossy(Scan(n), bus) ==> bus == Headers(7) + READ_TRAFFIC
  {
    hide Probes, KeepsUp, Overtaken, QueuePending, QueueTraffic, FirstRead, Writes, Scan, AllLeft, AllInitial, AllValid;
    hide OnlyLastStops, Safe, Lossy, Headers;
    ScanQueue(n);
    ScanSizes(n);
    HeadersFront(n, 7);
    if Lossy(Scan(n), bus) {
      LossyTorn(Scan(n), bus);
    }
  }

  lemma ScanBytes(devices: seq<nat>, t: Tx.TxElement)
    requires 8 <= |devices| && forall d <- devices :: d < 128
    ensures var tx := TxProbes(devices, |devices|) + [t];
            Tx.BytesTo(tx, |devices|) == |devices| < |Tx.QueueBytes(tx)| + 1 && Tx.QueueBytes(tx)[7] == 2 * devices[7]
  {
    ProbeBytes(devices);
    hide TxProbes, Tx.QueueBytes;
    Tx.BytesConcat(TxProbes(devices, |devices|), [t]);
    assert (TxProbes(devices, |devices|) + [t])[..|devices|] == TxProbes(devices, |devices|);
  }

  /** The read is addressed with the address byte of the eighth write. */
  lemma ScanAddress(devices: seq<nat>, t: Tx.TxElement, bus: seq<Event>, pushed: seq<byte>)
    requires 8 <= |devices| <= 37 && (forall d <- devices :: d < 128) && Alike(Scan(|devices|), TxProbes(devices, |devices|) + [t])
    requires Handed(Scan(|devices|)) && !Safe(Scan(|devices|)) && Lossy(Scan(|devices|), bus)
    requires pushed <= Tx.QueueBytes(TxProbes(devices, |devices|) + [t]) && Outs(bus) <= |pushed|
    ensures |bus| > 15 && bus[14] == StartBit
    ensures devices[7] < 128 && Wire.OnWire(bus, pushed)[15] == Wire.Out(2 * devices[7])
  {
    hide *;
    var n, tx := |devices|, TxProbes(devices, |devices|) + [t];
    ScanSizes(n);
    ScanBytes(devices, t);
    LossyTorn(Scan(n), bus);
    Wire.WrongAddress(Scan(n), tx, bus, pushed);
    assert devices[7] in devices;
  }

  lemma NoProbes(es: seq<QueueElement>, devices: seq<nat>)
    requires es == []
    ensures Views(es) == Probes(0, 0) && TxViews(es) == TxProbes(devices, 0)
  {
  }

  lemma NextProbe(devices: seq<nat>, k: nat)
    requires k < |devices| && devices[k] < 128
    ensures Probes(0, k) + [Queued(false, devices[k], [], false)] == Probes(0, k + 1)
    ensures TxProbes(devices, k) + [TxQueued(false, devices[k], [])] == TxProbes(devices, k + 1)
  {
  }

  lemma ScanAsQueued(devices: seq<nat>, device: nat)
    requires device < 128
    ensures Probes(0, |devices|) + [Queued(true, device, [0], true)] == Scan(|devices|)
    ensures Tx.Untouched(TxProbes(devices, |devices|) + [TxQueued(true, device, [0])], 0)
  {
  }

  method AddProbe(i: I2c, devices: seq<nat>, k: nat)
    requires i.Valid() && i.TxValid() && k < |devices| && devices[k] < 128
    requires Views(i.dq) == Probes(0, k) && TxViews(i.dq) == TxProbes(devices, k)
    modifies i`dq
    ensures i.Valid() && i.TxValid()
    ensures Views(i.dq) == Probes(0, k + 1) && TxViews(i.dq) == TxProbes(devices, k + 1)
    ensures |i.dq| == |old(i.dq)| + 1 && i.dq[..|old(i.dq)|] == old(i.dq) && fresh(i.dq[|old(i.dq)|])
  {
    hide *;
    i.AddQueue(false, devices[k], [], false);
    NextProbe(devices, k);
  }

  method AddProbes(i: I2c, devices: seq<nat>)
    requires i.Valid() && i.TxValid() && i.dq == [] && forall d <- devices :: d < 128
    modifies i`dq
    ensures i.Valid() && i.TxValid() && forall j :: 0 <= j < |i.dq| ==> fresh(i.dq[j])
    ensures Views(i.dq) == Probes(0, |devices|) && TxViews(i.dq) == TxProbes(devices, |devices|)
  {
    hide *;
    NoProbes(i.dq, devices);
    var k := 0;
    while k < |devices|
      invariant k <= |devices| && i.Valid() && i.TxValid() && forall j :: 0 <= j < |i.dq| ==> fresh(i.dq[j])
      invariant Views(i.dq) == Probes(0, k) && TxViews(i.dq) == TxProbes(devices, k)
    {
      assert devices[k] in devices;
      AddProbe(i, devices, k);
      k := k + 1;
    }
  }

  method QueueScan(devices: seq<nat>, device: nat) returns (i: I2c)
    requires device < 128 && forall d <- devices :: d < 128
    ensures i.Valid() && i.TxValid() && fresh(i) && fresh(i.command) && forall j :: 0 <= j < |i.dq| ==> fresh(i.dq[j])
    ensures Views(i.dq) == Scan(|devices|) && TxViews(i.dq) == TxProbes(devices, |devices|) + [TxQueued(true, device, [0])]
  {
    hide *;
    i := new I2c();
    AddProbes(i, devices);
    ScanAsQueued(devices, device);
    i.AddQueue(true, device, [0], true);
  }

  /** Searching for devices and then reading, in one queue. */
  method ScanThenRead(devices: seq<nat>, device: nat) returns (i: I2c)
    requires 8 <= |devices| <= 37 && device < 128 && forall d <- devices :: d < 128
    ensures i.bus == Headers(7) + READ_TRAFFIC
    ensures Outs(i.bus) <= |i.pushed| && devices[7] < 128 && Wire.OnWire(i.bus, i.pushed)[15] == Wire.Out(2 * devices[7])
  {
    hide *;
    i := QueueScan(devices, device);
    ghost var q, t := Views(i.dq), TxViews(i.dq);
    ScanLoses(|devices|, i.bus);
    ScanAsQueued(devices, device);
    QueuedViews(i.dq);
    i.Transfer(_ => true, _ => true);
    ScanLoses(|devices|, i.bus);
    ScanAddress(devices, TxQueued(true, device, [0]), i.bus, i.pushed);
  }
}
