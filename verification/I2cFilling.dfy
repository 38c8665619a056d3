/** Filling the command list from a transaction queue, and how far a list gets. */
module I2cFilling {
  import opened Sequences
  import opened I2cCommands

  // ---- How far a list gets with writes ----

  /** The commands it takes to move n data bytes. */
  function Blocks(n: nat): nat {
    (n + MAX_BLOCK - 1) / MAX_BLOCK
  }

  /** The bytes that do not fit a number of blocks. */
  function Left(n: nat, blocks: nat): nat {
    if n <= MAX_BLOCK * blocks then 0 else n - MAX_BLOCK * blocks
  }

  /** Blocks have up to 255 bytes, and no more blocks are used than needed. */
  lemma BlocksExact(n: nat, blocks: nat)
    ensures Blocks(n) <= blocks <==> n <= 255 * blocks
    ensures Left(n, blocks) == if n <= 255 * blocks then 0 else n - 255 * blocks
  {
  }

  lemma BlocksSuffice(n: nat, blocks: nat)
    ensures Left(n, blocks) == 0 <==> Blocks(n) <= blocks
    ensures Left(n, 0) == n
  {
    BlocksExact(n, blocks);
  }

  /** An element after a pass, and the slots that are left for the next one; 0 when the list
      is closed by END. */
  datatype Spent = Spent(e: Element, room: nat)

  /** What a pass does for a write without STOP when room slots are left. RSTART needs two. */
  function Spend(e: Element, room: nat): Spent {
    if !e.startCmdSent && room < 2 then Spent(e, 0)
    else
      var r := if e.startCmdSent then room else room - 2;
      var blocks := Blocks(e.cmdBytesNeeded);
      var left := Left(e.cmdBytesNeeded, r);
      var room' := if blocks <= r then r - blocks else 0;
      Spent(e.(startCmdSent := true, addrCmdSent := true, cmdBytesNeeded := left,
               dataCmdSent := if r == 0 then e.dataCmdSent else left == 0,
               stopCmdSent := e.stopCmdSent || (left == 0 && room' > 0)), room')
  }

  /** The writes after one list. */
  function AfterList(w: seq<Element>, room: nat): (w': seq<Element>)
    ensures |w'| == |w|
  {
    if w == [] || room == 0 then w
    else if w[0].stopCmdSent then [w[0]] + AfterList(w[1..], room)
    else
      var s := Spend(w[0], room);
      [s.e] + if s.e.stopCmdSent then AfterList(w[1..], s.room) else w[1..]
  }

  lemma AfterListSkip(w: seq<Element>, room: nat)
    requires w != [] && room > 0 && w[0].stopCmdSent
    ensures AfterList(w, room) == [w[0]] + AfterList(w[1..], room)
  {
  }

  lemma {:induction false} AfterListSkips(w: seq<Element>, k: nat, room: nat)
    requires k <= |w| && room > 0 && forall i :: 0 <= i < k ==> w[i].stopCmdSent
    ensures AfterList(w, room) == w[..k] + AfterList(w[k..], room)
  {
    hide AfterList;
    if k > 0 {
      AfterListSkip(w, room);
      AfterListSkips(w[1..], k - 1, room);
      assert w[1..][k - 1..] == w[k..] && w[..k] == [w[0]] + w[1..][..k - 1];
      Assoc([w[0]], w[1..][..k - 1], AfterList(w[k..], room));
    } else {
      assert w[..0] + AfterList(w[0..], room) == AfterList(w[0..], room) && w[0..] == w;
    }
  }

  /** Index of the first read, or the length of the queue. */
  function FirstRead(q: seq<Element>): (f: nat)
    ensures f <= |q| && (forall i :: 0 <= i < f ==> !q[i].read) && (f < |q| ==> q[f].read)
  {
    if q == [] || q[0].read then 0 else 1 + FirstRead(q[1..])
  }

  lemma FirstReadIs(q: seq<Element>, k: nat)
    requires k <= |q| && (forall i :: 0 <= i < k ==> !q[i].read) && (k < |q| ==> q[k].read)
    ensures FirstRead(q) == k
  {
  }

  /** What never changes about an element. */
  predicate SameElement(a: Element, b: Element) {
    a.read == b.read && a.stop == b.stop && a.length == b.length && a.addrReq == b.addrReq
  }

  predicate SameElements(q: seq<Element>, q': seq<Element>) {
    |q| == |q'| && forall i :: 0 <= i < |q| ==> SameElement(q[i], q'[i])
  }

  /** In the course of a list with room slots left, at element qp: how it will end for the
      elements before the first read is settled. */
  predicate FrontFilling(q0: seq<Element>, q: seq<Element>, qp: nat, room: nat) {
    var f := FirstRead(q0);
    qp <= |q| == |q0| &&
    (f < |q0| ==>
       if qp <= f then AfterList(q0[..f], 15) == q[..qp] + AfterList(q0[qp..f], room)
       else q[..f] == AfterList(q0[..f], 15))
  }

  /** The elements before the first read after one list. The others wait until these are done. */
  predicate FrontFilled(q0: seq<Element>, q: seq<Element>) {
    var f := FirstRead(q0);
    |q| == |q0| &&
    (f < |q0| ==>
       && q[..f] == AfterList(q0[..f], 15)
       && (q[f..] == q0[f..] || forall i :: 0 <= i < f ==> q[i].stopCmdSent))
  }

  // ---- Filling the list from a queue ----

  /** STOP is asked for by the last element at most: the queue is processed as soon as an
      element with STOP has been added. */
  predicate OnlyLastStops(q: seq<Element>) {
    forall i :: 0 <= i < |q| - 1 ==> !q[i].stop
  }

  /** What one pass over one element leaves in the list. */
  predicate PassResult(cs0: seq<Command>, cs: seq<Command>, before: Element, after: Element)
    requires |cs0| <= 14
  {
    var stopped := after.stop && after.stopCmdSent && !before.stopCmdSent;
    && (|cs| <= 14 || |cs| == SLOTS)
    && after.Valid() && SameElement(before, after)
    && (!before.read && !before.stop ==> Spend(before, 15 - |cs0|) == Spent(after, if |cs| == SLOTS then 0 else 15 - |cs|))
    && Work(after) <= Work(before)
    && (|cs0| < 14 && !before.stopCmdSent ==> Work(after) < Work(before))
    && (before.stopCmdSent ==> after.stopCmdSent)
    && if |cs| == SLOTS then
         Terminated(cs) && (Stops(cs) <==> stopped) && (after.stopCmdSent <==> stopped)
       else
         after.stopCmdSent && (if stopped then Terminated(cs) && Stops(cs) else Body(cs))
  }

  /** One pass over element qp of the queue: the other elements stay, and what is listed and
      pending from there on adds up to the same traffic. */
  predicate FillPassed(q: seq<Element>, q': seq<Element>, qp: nat, cs: seq<Command>, cs': seq<Command>) {
    && |cs| <= 14
    && qp < |q| == |q'| && q' == q[qp := q'[qp]]
    && Events(cs') + QueuePending(q'[qp..]) == Events(cs) + QueuePending(q[qp..])
    && PassResult(cs, cs', q[qp], q'[qp])
  }

  lemma PassOfQueue(q: seq<Element>, q': seq<Element>, qp: nat, e: Element, cs: seq<Command>, cs': seq<Command>)
    requires AllValid(q) && qp < |q| && q' == q[qp := e] && e.Valid() && |cs| <= 14
    requires Account(cs', e) == Account(cs, q[qp]) && PassResult(cs, cs', q[qp], e)
    ensures FillPassed(q, q', qp, cs, cs') && AllValid(q')
  {
    hide Events, Account, PassResult, QueuePending;
    QueueStep(cs, q, cs', q', qp);
  }

  /** Between two passes: q0 is the queue before the filling began, q the queue now; the
      elements before qp are done, those from qp on are untouched. */
  predicate Filling(q0: seq<Element>, q: seq<Element>, from: nat, qp: nat, cs: seq<Command>) {
    && from <= qp <= |q| == |q0| && |cs| <= 14
    && AllValid(q)
    && q[..from] == q0[..from]
    && (forall i :: from <= i < qp ==> q[i].stopCmdSent)
    && q[qp..] == q0[qp..] && SameElements(q0, q)
    && (from == 0 ==> FrontFilling(q0, q, qp, 15 - |cs|))
    && Body(cs)
    && (if cs == [] && QueueWork(q) == QueueWork(q0) then qp < |q| ==> !q[qp].stopCmdSent
        else QueueWork(q) < QueueWork(q0))
    && Events(cs) + QueuePending(q[qp..]) == QueuePending(q0[from..])
  }

  /** No element is begun before the one in front of it is done. */
  predicate Onward(q0: seq<Element>, q: seq<Element>, from: nat) {
    |q| == |q0| && forall i, j :: from <= i < j < |q| && !q[i].stopCmdSent ==> q[j] == q0[j] && !q0[i].stopCmdSent
  }

  /** A filled list cs, together with the queue q that is left of q0. */
  predicate Filled(q0: seq<Element>, q: seq<Element>, from: nat, cs: seq<Command>) {
    && from <= |q| == |q0| && |cs| <= SLOTS
    && AllValid(q) && SameElements(q0, q)
    && (from == 0 ==> FrontFilled(q0, q))
    && q[..from] == q0[..from] && Onward(q0, q, from)
    && Events(cs) + QueuePending(q[from..]) == QueuePending(q0[from..])
    && (!AllSent(q0, from) ==> QueueWork(q) < QueueWork(q0))
    && (|cs| < SLOTS ==> AllSent(q, from))
    && (|cs| == SLOTS ==> Terminated(cs) && (Stops(cs) <==> AllSent(q, from)))
    && (from < |q| && q0[|q| - 1].stop && !q0[|q| - 1].stopCmdSent ==>
          Terminated(cs) && q[|q| - 1].stop && (q[|q| - 1].stopCmdSent <==> AllSent(q, from)))
  }

  lemma FillingBody(q0: seq<Element>, q: seq<Element>, from: nat, qp: nat, cs: seq<Command>)
    requires Filling(q0, q, from, qp, cs)
    ensures Body(cs)
  {
  }

  lemma FillingStep(q0: seq<Element>, q: seq<Element>, from: nat, qp: nat, cs: seq<Command>,
                    q': seq<Element>, cs': seq<Command>)
    requires Filling(q0, q, from, qp, cs) && OnlyLastStops(q)
    requires FillPassed(q, q', qp, cs, cs')
    ensures OnlyLastStops(q')
    ensures |cs'| == SLOTS || (|cs'| <= 14 && q'[qp].stopCmdSent)
    ensures |cs'| == SLOTS || qp + 1 == |q| ==> Filled(q0, q', from, cs')
    ensures |cs'| < SLOTS && qp + 1 < |q| ==> Filling(q0, q', from, qp + 1, cs')
  {
    hide Events, QueuePending, Terminated, Stops, Body, FrontFilling, FrontFilled, Spend;
    if from == 0 {
      FrontStep(q0, q, qp, |cs|, q', |cs'|);
    }
    PendingSkip(q', from, qp);
    WorkUpdate(q, qp, q'[qp]);
    assert q[qp] == q0[qp] by { assert q[qp..][0] == q0[qp..][0]; }
    if |cs'| < SLOTS {
      PendingSkip(q', qp, qp + 1);
      PendingSkip(q', from, qp + 1);
      assert q'[qp + 1..] == q[qp..][1..] == q0[qp..][1..] == q0[qp + 1..];
    }
  }

  lemma FrontStep(q0: seq<Element>, q: seq<Element>, qp: nat, n: nat, q': seq<Element>, n': nat)
    requires qp < |q| == |q0| == |q'| && n <= 14 && (n' <= 14 || n' == SLOTS) && q' == q[qp := q'[qp]]
    requires OnlyLastStops(q) && SameElements(q0, q) && q[qp..] == q0[qp..] && q[qp].Valid()
    requires forall i :: 0 <= i < qp ==> q[i].stopCmdSent
    requires FrontFilling(q0, q, qp, 15 - n)
    requires !q[qp].read && !q[qp].stop ==> Spend(q[qp], 15 - n) == Spent(q'[qp], if n' == SLOTS then 0 else 15 - n')
    requires n' <= 14 ==> q'[qp].stopCmdSent
    requires n' == SLOTS && !q[qp].stop ==> !q'[qp].stopCmdSent
    ensures n' == SLOTS || qp + 1 == |q| ==> FrontFilled(q0, q')
    ensures n' <= 14 ==> FrontFilling(q0, q', qp + 1, 15 - n')
  {
    hide FirstRead, AfterList, Spend, SameElement;
    var f := FirstRead(q0);
    assert q[qp] == q0[qp] by { assert q[qp..][0] == q0[qp..][0]; }
    if qp < f < |q0| {
      assert SameElement(q0[qp], q[qp]);
      AfterListFirst(q0[qp..f], 15 - n, q'[qp], if n' == SLOTS then 0 else 15 - n', n' == SLOTS);
      FrontMoves(q0, q, qp, f, q');
    } else if f < |q0| {
      assert q'[..f] == q[..f];
    }
  }

  lemma FrontMoves(q0: seq<Element>, q: seq<Element>, qp: nat, f: nat, q': seq<Element>)
    requires qp < f <= |q| == |q0| == |q'| && q' == q[qp := q'[qp]] && q[qp..] == q0[qp..]
    ensures q0[qp..f][1..] == q0[qp + 1..f] && q'[..qp + 1] == q[..qp] + [q'[qp]]
    ensures q'[..f] == q'[..qp + 1] + q0[qp + 1..f] && q'[f..] == q0[f..]
  {
    assert forall i :: qp <= i < |q| ==> q[i] == q[qp..][i - qp] == q0[qp..][i - qp] == q0[i];
  }

  lemma AfterListFirst(w: seq<Element>, room: nat, e: Element, left: nat, full: bool)
    requires w != [] && room > 0 && w[0].Valid() && Spend(w[0], room) == Spent(e, left)
    requires if full then !e.stopCmdSent else e.stopCmdSent
    ensures AfterList(w, room) == [e] + if full then w[1..] else AfterList(w[1..], left)
  {
  }

  lemma FillingStart(q: seq<Element>, from: nat, qp: nat)
    requires from <= qp <= |q| && AllValid(q)
    requires forall i :: from <= i < qp ==> q[i].stopCmdSent
    requires qp < |q| ==> !q[qp].stopCmdSent
    ensures if qp < |q| then Filling(q, q, from, qp, []) else Filled(q, q, from, [])
  {
    hide QueuePending, FrontFilling, FrontFilled, AfterList;
    PendingSkip(q, from, qp);
    if from == 0 {
      FrontStart(q, qp);
    }
  }

  lemma FrontStart(q: seq<Element>, qp: nat)
    requires qp <= |q| && forall i :: 0 <= i < qp ==> q[i].stopCmdSent
    ensures FrontFilling(q, q, qp, 15) && (qp == |q| ==> FrontFilled(q, q))
  {
    hide AfterList;
    var f := FirstRead(q);
    var k := if qp <= f then qp else f;
    AfterListSkips(q[..f], k, 15);
    Split(q, k, f);
    NothingToFill();
  }

  lemma NothingToFill()
    ensures AfterList([], 15) == []
  {
  }

  /** The queue as it is handed over: processing starts when an element with STOP was added. */
  predicate Ready(q: seq<Element>) {
    && AllValid(q) && OnlyLastStops(q)
    && q != [] && q[|q| - 1].stop && !q[|q| - 1].stopCmdSent
  }

  /** A filled list can be started. It ends with STOP iff the queue needs no further commands,
      and otherwise brings the queue forward. */
  lemma ListEnds(q0: seq<Element>, q: seq<Element>, from: nat, cs: seq<Command>)
    requires Ready(q0) && from < |q0| && Filled(q0, q, from, cs) && OnlyLastStops(q)
    ensures Terminated(cs) && (Stops(cs) <==> AllSent(q, from))
    ensures !Stops(cs) ==> Ready(q)
    ensures QueueWork(q) < QueueWork(q0)
  {
    hide Events, QueuePending, QueueWork, FrontFilled, Onward, SameElements;
    if |cs| < SLOTS {
      StopsAtEnd(cs);
    }
    assert !AllSent(q0, from);
  }

  lemma StopsAtEnd(cs: seq<Command>)
    requires Terminated(cs) && |cs| < SLOTS
    ensures Stops(cs)
  {
  }

  /** The lists issued so far: all terminated, none but the last one with STOP, and that one
      exactly when the transfer is over. */
  predicate Issued(lists: seq<seq<Command>>, over: bool) {
    && (over ==> lists != [])
    && forall i :: 0 <= i < |lists| ==> Terminated(lists[i]) && (Stops(lists[i]) <==> over && i == |lists| - 1)
  }

  lemma IssuedAppend(lists: seq<seq<Command>>, cs: seq<Command>)
    requires Issued(lists, false) && Terminated(cs)
    ensures Issued(lists + [cs], Stops(cs))
  {
  }

  /** The element needs no further command. */
  predicate Served(e: Element) {
    e.startCmdSent && e.addrCmdSent && e.cmdBytesNeeded == 0 && (e.stop ==> e.stopCmdSent)
  }

  lemma PendingIffNotServed(e: Element)
    requires e.Valid()
    ensures Pending(e) == [] <==> Served(e)
  {
  }

  lemma {:induction false} QueuePendingIffNotServed(q: seq<Element>)
    requires AllValid(q)
    ensures QueuePending(q) == [] <==> forall i :: 0 <= i < |q| ==> Served(q[i])
  {
    if q != [] {
      PendingIffNotServed(q[0]);
      QueuePendingIffNotServed(q[1..]);
      assert |QueuePending(q)| == |Pending(q[0])| + |QueuePending(q[1..])|;
      assert forall i :: 0 < i < |q| ==> q[i] == q[1..][i - 1];
    }
  }

  /** A list that completes the queue from queuePos on carries all the pending traffic iff
      every element in front of queuePos has had its commands: the filling never looks back. */
  lemma CompletedTraffic(q: seq<Element>, q': seq<Element>, queuePos: nat, cs: seq<Command>)
    requires AllValid(q) && Filled(q, q', queuePos, cs) && AllSent(q', queuePos)
    ensures Events(cs) == QueuePending(q) <==> forall i :: 0 <= i < queuePos ==> Served(q[i])
  {
    hide Events, Terminated, Stops, QueuePending;
    var front := q[..queuePos];
    PendingSkip(q', queuePos, |q'|);
    assert q'[|q'|..] == [];
    PendingDone([]);
    assert q == front + q[queuePos..];
    PendingConcat(front, q[queuePos..]);
    QueuePendingIffNotServed(front);
    assert |QueuePending(q)| == |QueuePending(front)| + |Events(cs)|;
    assert forall i :: 0 <= i < queuePos ==> front[i] == q[i];
    if QueuePending(front) == [] {
      assert [] + Events(cs) == Events(cs);
    }
  }

}
