/** The bytes the master sends for a transaction queue: the address of every element, and
    the payload of every write, in queue order. */
module I2cTxBytes {
  import opened Sequences

  const FIFO_SIZE := 32
  const FIFO_FULL := 31 // the driver stops feeding here, except for payload bytes

  /** One queue element, as far as the transmit FIFO is concerned. */
  datatype TxElement = TxElement(read: bool, addrReq: nat, addr: nat, data: seq<byte>, addrSent: nat, position: nat) {
    predicate Valid() {
      addrSent <= addrReq <= 2 && position <= |data|
    }
  }

  /** A 10-bit address goes out high byte first, a 7-bit address is one byte. */
  function AddressBytes(e: TxElement): seq<byte> {
    if e.addrReq == 2 then [e.addr / 256 % 256, e.addr % 256]
    else if e.addrReq == 1 then [e.addr % 256]
    else []
  }

  function Bytes(e: TxElement): seq<byte> {
    AddressBytes(e) + if e.read then [] else e.data
  }

  /** The bytes of an element that have not been pushed yet. */
  function Pending(e: TxElement): seq<byte> {
    Drop(AddressBytes(e), e.addrSent) + if e.read then [] else Drop(e.data, e.position)
  }

  function Drop(s: seq<byte>, n: nat): seq<byte> {
    if n <= |s| then s[n..] else []
  }

  predicate AllValid(q: seq<TxElement>) {
    forall i :: 0 <= i < |q| ==> q[i].Valid()
  }

  lemma AllValidUpdate(q: seq<TxElement>, k: nat, e: TxElement)
    requires AllValid(q) && k < |q| && e.Valid()
    ensures AllValid(q[k := e])
  {
  }

  function QueueBytes(q: seq<TxElement>): seq<byte> {
    if q == [] then [] else Bytes(q[0]) + QueueBytes(q[1..])
  }

  function QueuePending(q: seq<TxElement>): seq<byte> {
    if q == [] then [] else Pending(q[0]) + QueuePending(q[1..])
  }

  /** Nothing is pending in front of k. */
  predicate PushedBefore(q: seq<TxElement>, k: nat) {
    k <= |q| && forall i :: 0 <= i < k ==> Pending(q[i]) == []
  }

  predicate PushedFrom(q: seq<TxElement>, i: nat, k: nat) {
    i <= k <= |q| && forall j :: i <= j < k ==> Pending(q[j]) == []
  }

  lemma {:induction false} PendingInitially(q: seq<TxElement>)
    requires forall e <- q :: e.addrSent == 0 && e.position == 0
    ensures QueuePending(q) == QueueBytes(q)
  {
    if q != [] {
      assert q[0] in q;
      PendingInitially(q[1..]);
    }
  }

  lemma {:induction false} PendingSkip(q: seq<TxElement>, k: nat)
    requires PushedBefore(q, k)
    ensures QueuePending(q) == QueuePending(q[k..])
  {
    if k == 0 {
      assert q[0..] == q;
    } else {
      assert q[k..] == q[1..][k - 1..];
      PendingSkip(q[1..], k - 1);
    }
  }

  lemma QueueSplit(q: seq<TxElement>, k: nat)
    requires k < |q| && PushedBefore(q, k)
    ensures QueuePending(q) == Pending(q[k]) + QueuePending(q[k + 1..])
  {
    PendingSkip(q, k);
    assert q[k..][1..] == q[k + 1..];
  }

  /** An element and the rest of the queue share one account. */
  lemma QueueStep(pushed: seq<byte>, q: seq<TxElement>, pushed': seq<byte>, e: TxElement, k: nat)
    requires k < |q| && PushedBefore(q, k)
    requires pushed' + Pending(e) == pushed + Pending(q[k])
    ensures PushedBefore(q[k := e], k)
    ensures pushed' + QueuePending(q[k := e]) == pushed + QueuePending(q)
  {
    var q' := q[k := e];
    QueueSplit(q, k);
    QueueSplit(q', k);
    assert q[k + 1..] == q'[k + 1..];
    hide QueuePending, Pending;
    Assoc(pushed, Pending(q[k]), QueuePending(q[k + 1..]));
    Assoc(pushed', Pending(e), QueuePending(q[k + 1..]));
  }

  lemma AddressStep(pushed: seq<byte>, e: TxElement)
    requires e.Valid() && e.addrSent < e.addrReq
    ensures pushed + [AddressBytes(e)[e.addrSent]] + Pending(e.(addrSent := e.addrSent + 1)) == pushed + Pending(e)
  {
  }

  lemma DataStep(pushed: seq<byte>, e: TxElement)
    requires e.Valid() && !e.read && e.addrSent == e.addrReq && e.position < |e.data|
    ensures pushed + [e.data[e.position]] + Pending(e.(position := e.position + 1)) == pushed + Pending(e)
  {
  }

  /** What has been pushed is always a prefix of the bytes of the queue, and all of it as
      soon as nothing is pending. */
  lemma PushedIsPrefix(pushed: seq<byte>, pending: seq<byte>, total: seq<byte>)
    requires pushed + pending == total
    ensures pushed <= total
    ensures pushed == total <==> pending == []
  {
  }

  /** What was pushed and what is pending add up to the bytes of the queue. */
  predicate Balanced(pushed: seq<byte>, q: seq<TxElement>, total: seq<byte>) {
    pushed + QueuePending(q) == total
  }

  // ---- How far the transmit interrupt gets ----

  /** The same element, possibly further on. */
  predicate SameBytes(a: TxElement, b: TxElement) {
    b == a.(addrSent := b.addrSent, position := b.position) && a.addrSent <= b.addrSent && a.position <= b.position
  }

  predicate SameQueue(q: seq<TxElement>, q': seq<TxElement>) {
    |q| == |q'| && forall i :: 0 <= i < |q| ==> SameBytes(q[i], q'[i])
  }

  lemma {:induction false} SameQueueBytes(q: seq<TxElement>, q': seq<TxElement>)
    requires SameQueue(q, q')
    ensures QueueBytes(q) == QueueBytes(q')
  {
    if q != [] {
      assert SameBytes(q[0], q'[0]);
      SameQueueBytes(q[1..], q'[1..]);
    }
  }

  /** The number of bytes in front of element k. */
  function BytesTo(q: seq<TxElement>, k: nat): nat
    requires k <= |q|
  {
    |QueueBytes(q[..k])|
  }

  lemma SameBytesTo(q: seq<TxElement>, q': seq<TxElement>, k: nat)
    requires SameQueue(q, q') && k <= |q|
    ensures BytesTo(q, k) == BytesTo(q', k)
  {
    SameQueueBytes(q[..k], q'[..k]);
  }

  /** Nothing was pushed from element k on. */
  predicate Untouched(q: seq<TxElement>, k: nat) {
    forall i :: k <= i < |q| ==> q[i].addrSent == 0 && q[i].position == 0
  }

  lemma {:induction false} BytesConcat(a: seq<TxElement>, b: seq<TxElement>)
    ensures QueueBytes(a + b) == QueueBytes(a) + QueueBytes(b)
  {
    if a == [] {
      assert a + b == b;
    } else {
      assert (a + b)[1..] == a[1..] + b;
      BytesConcat(a[1..], b);
      hide Bytes;
      Assoc(Bytes(a[0]), QueueBytes(a[1..]), QueueBytes(b));
    }
  }

  lemma {:induction false} PendingConcat(a: seq<TxElement>, b: seq<TxElement>)
    ensures QueuePending(a + b) == QueuePending(a) + QueuePending(b)
  {
    if a == [] {
      assert a + b == b;
    } else {
      assert (a + b)[1..] == a[1..] + b;
      PendingConcat(a[1..], b);
      hide Pending;
      Assoc(Pending(a[0]), QueuePending(a[1..]), QueuePending(b));
    }
  }

  lemma {:induction false} PendingAtMost(q: seq<TxElement>)
    ensures |QueuePending(q)| <= |QueueBytes(q)|
  {
    if q != [] {
      PendingAtMost(q[1..]);
    }
  }

  lemma PushedAtLeast(q: seq<TxElement>, pushed: seq<byte>, k: nat)
    requires Balanced(pushed, q, QueueBytes(q)) && PushedBefore(q, k)
    ensures BytesTo(q, k) <= |pushed|
  {
    PendingSkip(q, k);
    assert q == q[..k] + q[k..];
    BytesConcat(q[..k], q[k..]);
    PendingAtMost(q[k..]);
    assert |pushed| + |QueuePending(q)| == |QueueBytes(q)|;
  }

  lemma UntouchedPending(q: seq<TxElement>, k: nat)
    requires k <= |q| && Untouched(q, k)
    ensures QueuePending(q[k..]) == QueueBytes(q[k..])
  {
    assert forall e <- q[k..] :: e.addrSent == 0 && e.position == 0;
    PendingInitially(q[k..]);
  }

  lemma PushedFront(q: seq<TxElement>, pushed: seq<byte>, k: nat)
    requires Balanced(pushed, q, QueueBytes(q)) && k <= |q| && Untouched(q, k)
    ensures |pushed| + |QueuePending(q[..k])| == BytesTo(q, k)
  {
    hide QueuePending, QueueBytes, Untouched;
    Split(q, k, k);
    BytesConcat(q[..k], q[k..]);
    PendingConcat(q[..k], q[k..]);
    UntouchedPending(q, k);
    assert |pushed| + |QueuePending(q)| == |QueueBytes(q)|;
  }

  /** No element is begun before the one in front of it is done. */
  predicate InOrder(q: seq<TxElement>) {
    forall i, j :: 0 <= i < j < |q| && Pending(q[i]) != [] ==> q[j].addrSent == 0 && q[j].position == 0
  }

  lemma {:induction false} PendingAt(q: seq<TxElement>, i: nat)
    requires i < |q| && Pending(q[i]) != []
    ensures QueuePending(q) != []
  {
    hide Pending;
    if i > 0 {
      assert q[1..][i - 1] == q[i];
      PendingAt(q[1..], i - 1);
    }
  }

  lemma BytesGrow(q: seq<TxElement>, i: nat, k: nat)
    requires i <= k <= |q|
    ensures BytesTo(q, i) <= BytesTo(q, k)
  {
    Split(q, i, k);
    BytesConcat(q[..i], q[i..k]);
  }

  lemma PushedLess(q: seq<TxElement>, pushed: seq<byte>, i: nat, k: nat)
    requires Balanced(pushed, q, QueueBytes(q)) && InOrder(q) && i < k <= |q| && Pending(q[i]) != []
    ensures |pushed| < BytesTo(q, k)
  {
    hide QueuePending, QueueBytes, Balanced, BytesTo, Pending;
    PushedFront(q, pushed, i + 1);
    BytesGrow(q, i + 1, k);
    PendingAt(q[..i + 1], i);
  }

  /** The loop of the transmit interrupt: it began at pos0 with the queue q0 and has arrived at
      a; queuePos is pos, the first read from pos0 on once a read was met. The bus has taken
      so many of the pushed bytes, cnt are in the FIFO. */
  predicate Feeding(q0: seq<TxElement>, q: seq<TxElement>, pos0: nat, pos: nat, a: nat, readMet: bool,
                    pushed: seq<byte>, cnt: nat, taken: nat) {
    && pos0 <= pos <= a <= |q| && PushedBefore(q, a)
    && Balanced(pushed, q, QueueBytes(q0)) && |pushed| == taken + cnt
    && SameQueue(q0, q) && (forall i :: a < i < |q| ==> q[i] == q0[i])
    && Met(q0, pos0, pos, a, readMet) && (pos != pos0 ==> BytesTo(q0, pos) < taken + FIFO_FULL)
  }

  /** pos is the first read from pos0 on, if one was met on the way to a. */
  predicate Met(q: seq<TxElement>, pos0: nat, pos: nat, a: nat, readMet: bool) {
    && pos0 <= pos <= a <= |q| && (forall i :: pos0 <= i < pos ==> !q[i].read)
    && if readMet then pos < |q| && q[pos].read else pos == pos0 && forall i :: pos0 <= i < a ==> !q[i].read
  }

  lemma MetStep(q: seq<TxElement>, pos0: nat, pos: nat, a: nat, readMet: bool)
    requires Met(q, pos0, pos, a, readMet) && a < |q|
    ensures var pos', met := if q[a].read && !readMet then a else pos, readMet || q[a].read;
            Met(q, pos0, pos', a, met) && Met(q, pos0, pos', a + 1, met)
  {
  }

  lemma FeedingStart(q: seq<TxElement>, pos: nat, pushed: seq<byte>, cnt: nat, taken: nat)
    requires PushedBefore(q, pos) && Balanced(pushed, q, QueueBytes(q)) && |pushed| == taken + cnt
    ensures Feeding(q, q, pos, pos, pos, false, pushed, cnt, taken)
  {
  }

  lemma FeedingFacts(q0: seq<TxElement>, q: seq<TxElement>, pos0: nat, pos: nat, a: nat, readMet: bool,
                     pushed: seq<byte>, cnt: nat, taken: nat)
    requires Feeding(q0, q, pos0, pos, a, readMet, pushed, cnt, taken)
    ensures PushedBefore(q, a) && pos <= a <= |q| && Balanced(pushed, q, QueueBytes(q0)) && |pushed| == taken + cnt
  {
  }

  /** Reaching a with room in the FIFO means that the bus has taken most of what comes before. */
  lemma RoomAt(q0: seq<TxElement>, q: seq<TxElement>, pos0: nat, pos: nat, a: nat, readMet: bool,
               pushed: seq<byte>, cnt: nat, taken: nat)
    requires Feeding(q0, q, pos0, pos, a, readMet, pushed, cnt, taken) && cnt < FIFO_FULL
    ensures BytesTo(q0, a) < taken + FIFO_FULL
  {
    SameQueueBytes(q0, q);
    PushedAtLeast(q, pushed, a);
    SameBytesTo(q0, q, a);
  }

  lemma FeedingStep(q0: seq<TxElement>, q: seq<TxElement>, e: TxElement, pos0: nat, pos: nat, a: nat, readMet: bool,
                    pushed: seq<byte>, cnt: nat, pushed': seq<byte>, cnt': nat, taken: nat)
    requires Feeding(q0, q, pos0, pos, a, readMet, pushed, cnt, taken) && a < |q| && cnt < FIFO_FULL
    requires SameBytes(q[a], e) && Balanced(pushed', q[a := e], QueueBytes(q0)) && |pushed'| == taken + cnt'
    ensures var pos', met := if e.read && !readMet then a else pos, readMet || e.read;
            && Feeding(q0, q[a := e], pos0, pos', a, met, pushed', cnt', taken)
            && (Pending(e) == [] ==> Feeding(q0, q[a := e], pos0, pos', a + 1, met, pushed', cnt', taken))
  {
    RoomAt(q0, q, pos0, pos, a, readMet, pushed, cnt, taken);
    UpdateAt(q0, q, a, e);
    MetStep(q0, pos0, pos, a, readMet);
    hide Pending, Balanced, BytesTo, QueueBytes, PushedBefore, SameQueue, SameBytes, Met;
  }

  lemma UpdateAt(q0: seq<TxElement>, q: seq<TxElement>, a: nat, e: TxElement)
    requires SameQueue(q0, q) && a < |q| && SameBytes(q[a], e) && PushedBefore(q, a)
    ensures SameQueue(q0, q[a := e]) && PushedBefore(q[a := e], a) && e.read == q0[a].read
    ensures Pending(e) == [] ==> PushedBefore(q[a := e], a + 1)
  {
    hide Pending;
    assert SameBytes(q0[a], q[a]);
  }

  lemma StaysInOrder(q0: seq<TxElement>, q: seq<TxElement>, a: nat)
    requires PushedBefore(q, a) && SameQueue(q0, q) && (forall i :: a < i < |q| ==> q[i] == q0[i]) && InOrder(q0)
    ensures InOrder(q)
  {
    forall i, j | 0 <= i < j < |q| && Pending(q[i]) != []
      ensures q[j].addrSent == 0 && q[j].position == 0
    {
      assert SameBytes(q0[i], q[i]);
    }
  }

  /** What the transmit interrupt leaves behind. It moves queuePos to the next read iff the
      bus has taken so much that the bytes before this read fit the FIFO. */
  ghost predicate Fed(q0: seq<TxElement>, q: seq<TxElement>, pos0: nat, pos: nat, taken: nat) {
    && pos0 <= pos <= |q| && PushedBefore(q, pos) && SameQueue(q0, q)
    && (pos == pos0 || (pos < |q0| && q0[pos].read && BytesTo(q0, pos) < taken + FIFO_FULL))
    && (forall i :: pos0 <= i < pos ==> !q0[i].read)
    && (InOrder(q0) ==> InOrder(q))
    && (pos == pos0 ==> forall f :: NextRead(q0, pos0, f) && Untouched(q0, f) ==> Untouched(q, f) && BytesTo(q0, f) >= taken + FIFO_FULL)
  }

  /** The first read behind pos, which is a write. */
  predicate NextRead(q: seq<TxElement>, pos: nat, f: nat) {
    pos < f < |q| && q[f].read && forall i :: pos <= i < f ==> !q[i].read
  }

  lemma FeedingEnds(q0: seq<TxElement>, q: seq<TxElement>, pos0: nat, pos: nat, a: nat, readMet: bool,
                    pushed: seq<byte>, cnt: nat, taken: nat)
    requires Feeding(q0, q, pos0, pos, a, readMet, pushed, cnt, taken)
    requires a == |q| || (a < |q| && cnt >= FIFO_FULL && (readMet || !q0[a].read || a == pos0))
    ensures Fed(q0, q, pos0, pos, taken)
    ensures a == |q| ==> QueuePending(q) == []
  {
    if a == |q| {
      PendingSkip(q, a);
      assert q[a..] == [];
    }
    if InOrder(q0) {
      StaysInOrder(q0, q, a);
    }
    hide QueuePending, Balanced, BytesTo, QueueBytes, Untouched, SameQueue, NextRead, InOrder;
    forall f | pos == pos0 && NextRead(q0, pos0, f) && Untouched(q0, f)
      ensures Untouched(q, f) && BytesTo(q0, f) >= taken + FIFO_FULL
    {
      FeedingWaits(q0, q, pos0, a, readMet, pushed, cnt, taken, f);
    }
    PushedTo(q, pos, a);
  }

  lemma PushedTo(q: seq<TxElement>, pos: nat, a: nat)
    requires PushedBefore(q, a) && pos <= a
    ensures PushedBefore(q, pos)
  {
  }

  lemma FeedingWaits(q0: seq<TxElement>, q: seq<TxElement>, pos0: nat, a: nat, readMet: bool,
                     pushed: seq<byte>, cnt: nat, taken: nat, f: nat)
    requires Feeding(q0, q, pos0, pos0, a, readMet, pushed, cnt, taken)
    requires a == |q| || (a < |q| && cnt >= FIFO_FULL && (readMet || !q0[a].read || a == pos0))
    requires NextRead(q0, pos0, f) && Untouched(q0, f)
    ensures Untouched(q, f) && BytesTo(q0, f) >= taken + FIFO_FULL
  {
    assert a < f;
    hide PushedBefore, BytesTo, QueueBytes;
    assert Untouched(q, f);
    SameQueueBytes(q0, q);
    PushedFront(q, pushed, f);
    SameBytesTo(q0, q, f);
  }

  /** At least so many bytes leave a FIFO that is filled up before each of these drains. */
  function Drained(drains: seq<nat>): nat {
    if drains == [] then 0
    else Drained(drains[..|drains| - 1]) + Min(drains[|drains| - 1], FIFO_FULL)
  }

  function Min(a: nat, b: nat): nat {
    if a < b then a else b
  }

  // ---- Device addresses ----

  /** Two address bytes for a 10-bit address, which carries 0b11110 in its upper bits. */
  function AddrReq(device: nat): (r: nat)
    ensures 1 <= r <= 2
  {
    if device / 0x400 == 0x7800 / 0x400 then 2 else 1
  }

  /** The address as it is put into the FIFO, with the direction bit in place. */
  function WireAddress(device: nat, addrReq: nat, read: bool): nat {
    var mode := if read then 1 else 0;
    if addrReq == 2 then (device / 256 % 128 * 2 + mode) * 256 + device % 256
    else device % 128 * 2 + mode
  }

  /** A 7-bit address is sent as one byte, with the direction behind it (UM10204, section
      3.1.10). */
  lemma SevenBitAddress(a: nat, read: bool, data: seq<byte>)
    requires a < 128
    ensures AddressBytes(TxElement(read, AddrReq(a), WireAddress(a, AddrReq(a), read), data, 0, 0))
         == [2 * a + if read then 1 else 0]
  {
  }

  /** A 10-bit address is sent as 0b11110 with its two upper bits and the direction, then its
      eight lower bits (section 3.1.11). */
  lemma TenBitAddress(a: nat, read: bool, data: seq<byte>)
    requires a < 1024
    ensures var device := 0x7800 + a;
            var e := TxElement(read, AddrReq(device), WireAddress(device, AddrReq(device), read), data, 0, 0);
            AddressBytes(e) == [0xF0 + 2 * (a / 256) + (if read then 1 else 0), a % 256]
  {
    var device := 0x7800 + a;
    assert device / 256 == 0x78 + a / 256 && device % 256 == a % 256 && device / 0x400 == 30;
    var high := 0xF0 + 2 * (a / 256) + (if read then 1 else 0);
    assert WireAddress(device, 2, read) == high * 256 + a % 256;
    hide WireAddress;
    assert (high * 256 + a % 256) / 256 == high;
  }

  /** A 10-bit read addresses the device again with the first of these bytes. */
  lemma TenBitRead(a: nat)
    requires a < 1024
    ensures var device := (0x7800 + a) / 256;
            AddrReq(device) == 1 && WireAddress(device, 1, true) == 0xF0 + 2 * (a / 256) + 1
  {
    assert (0x7800 + a) / 256 == 0x78 + a / 256;
  }
}
