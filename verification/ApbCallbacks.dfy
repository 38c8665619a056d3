/** The callbacks that are told about changes of the APB clock: a doubly linked list on the
    heap, newest entry first. */
module ApbCallbacks {
  import opened Sequences

  type Pointer = nat

  datatype Entry = Entry(cb: Pointer, arg: Pointer)
  datatype Event = BeforeChange | AfterChange
  datatype Call = Call(entry: Entry, event: Event, oldApb: nat, newApb: nat)

  // ---- The registrations as a history of requests ----

  /** A request to add carries whether memory for a new node was available. */
  datatype Request = Add(entry: Entry, mallocOk: bool) | Remove(entry: Entry)

  function Without(s: seq<Entry>, e: Entry): seq<Entry> {
    if s == [] then [] else if s[0] == e then s[1..] else [s[0]] + Without(s[1..], e)
  }

  /** A duplicate is refused, a new entry goes to the front if there is memory, an unknown entry
      cannot be removed. */
  function Apply(s: seq<Entry>, q: Request): seq<Entry> {
    match q
    case Add(e, mallocOk) => if !mallocOk || e in s then s else [e] + s
    case Remove(e) => Without(s, e)
  }

  function Run(history: seq<Request>): seq<Entry> {
    if history == [] then [] else Apply(Run(history[..|history| - 1]), history[|history| - 1])
  }

  /** A request for e that was not refused for lack of memory. */
  predicate Concerns(q: Request, e: Entry) {
    q.entry == e && (q.Add? ==> q.mallocOk)
  }

  /** The last of these requests was to add it. */
  predicate Registered(history: seq<Request>, e: Entry) {
    if history == [] then false
    else
      var last := history[|history| - 1];
      if Concerns(last, e) then last.Add? else Registered(history[..|history| - 1], e)
  }

  /** Some request has added it, and none has removed it since. */
  lemma {:induction false} RegisteredExactly(history: seq<Request>, e: Entry)
    ensures Registered(history, e) <==>
            exists k :: 0 <= k < |history| && history[k] == Add(e, true) && Remove(e) !in history[k..]
  {
    if history != [] {
      var front, last := history[..|history| - 1], history[|history| - 1];
      RegisteredExactly(front, e);
      assert forall k :: 0 <= k < |front| ==> history[k] == front[k] && history[k..] == front[k..] + [last];
      assert history[|front|..] == [last];
    }
  }

  /** When e was registered, if it is: the first Add with memory since it was last removed. */
  function AddedAt(history: seq<Request>, e: Entry): nat
    ensures Registered(history, e) ==> AddedAt(history, e) < |history|
  {
    if history == [] then 0
    else
      var front, last := history[..|history| - 1], history[|history| - 1];
      if Concerns(last, e) && !Registered(front, e) then |front| else AddedAt(front, e)
  }

  predicate Unique(s: seq<Entry>) {
    forall i, j :: 0 <= i < j < |s| ==> s[i] != s[j]
  }

  lemma {:induction false} WithoutMembers(s: seq<Entry>, e: Entry)
    requires Unique(s)
    ensures Unique(Without(s, e))
    ensures forall x :: x in Without(s, e) <==> x in s && x != e
  {
    if s != [] {
      WithoutMembers(s[1..], e);
      assert forall x :: x in s <==> x == s[0] || x in s[1..];
      assert s[0] !in s[1..];
    }
  }

  predicate NewestFirst(history: seq<Request>, s: seq<Entry>) {
    forall i, j :: 0 <= i < j < |s| ==> AddedAt(history, s[i]) > AddedAt(history, s[j])
  }

  lemma {:induction false} WithoutKeepsOrder(history: seq<Request>, s: seq<Entry>, e: Entry)
    requires NewestFirst(history, s)
    ensures NewestFirst(history, Without(s, e))
    ensures forall x :: x in Without(s, e) ==> x in s
  {
    hide AddedAt;
    if s != [] && s[0] != e {
      var rest := s[1..];
      WithoutKeepsOrder(history, rest, e);
      var t := Without(rest, e);
      forall j | 0 <= j < |t| ensures AddedAt(history, s[0]) > AddedAt(history, t[j]) {
        assert t[j] in rest;
        var k :| 0 <= k < |rest| && rest[k] == t[j];
        assert s[k + 1] == t[j];
      }
    }
  }

  /** A request changes the time of no entry but its own. */
  lemma OtherTimes(front: seq<Request>, last: Request, s: seq<Entry>)
    requires NewestFirst(front, s) && forall x <- s :: x != last.entry || Registered(front, x)
    ensures NewestFirst(front + [last], s)
  {
  }

  /** After any history the list holds every registered entry exactly once, newest first. */
  lemma {:induction false} RunIsRegistered(history: seq<Request>)
    ensures Unique(Run(history))
    ensures forall e :: e in Run(history) <==> Registered(history, e)
    ensures NewestFirst(history, Run(history))
  {
    if history != [] {
      var front, last := history[..|history| - 1], history[|history| - 1];
      var s, e := Run(front), last.entry;
      assert history == front + [last];
      RunIsRegistered(front);
      OtherTimes(front, last, s);
      WithoutMembers(s, e);
      WithoutKeepsOrder(front, s, e);
      OtherTimes(front, last, Without(s, e));
    }
  }

  function Reversed<T>(s: seq<T>): (r: seq<T>)
    ensures |r| == |s|
    ensures forall i :: 0 <= i < |s| ==> r[i] == s[|s| - 1 - i]
  {
    if s == [] then [] else Reversed(s[1..]) + [s[0]]
  }

  /** One call for every entry, in the order of the list. */
  function Calls(s: seq<Entry>, event: Event, oldApb: nat, newApb: nat): (r: seq<Call>)
    ensures |r| == |s|
    ensures forall i :: 0 <= i < |s| ==> r[i] == Call(s[i], event, oldApb, newApb)
  {
    if s == [] then [] else [Call(s[0], event, oldApb, newApb)] + Calls(s[1..], event, oldApb, newApb)
  }

  // ---- The list on the heap ----

  class Node {
    var prev: Node?
    var next: Node?
    const arg: Pointer
    const cb: Pointer

    constructor (arg: Pointer, cb: Pointer)
      ensures this.arg == arg && this.cb == cb && prev == null && next == null
    {
      this.arg, this.cb, prev, next := arg, cb, null, null;
    }
  }

  ghost function EntryOf(n: Node): Entry {
    Entry(n.cb, n.arg)
  }

  ghost function EntriesOf(nodes: seq<Node>): (s: seq<Entry>)
    ensures |s| == |nodes|
    ensures forall i :: 0 <= i < |nodes| ==> s[i] == EntryOf(nodes[i])
  {
    if nodes == [] then [] else [EntryOf(nodes[0])] + EntriesOf(nodes[1..])
  }

  ghost function At(nodes: seq<Node>, i: int): Node? {
    if 0 <= i < |nodes| then nodes[i] else null
  }

  /** The first i of the calls have been made since start. */
  ghost predicate Logged(log: seq<Call>, start: seq<Call>, calls: seq<Call>, i: nat) {
    i <= |calls| && log == start + calls[..i]
  }

  lemma LogStep(log: seq<Call>, start: seq<Call>, calls: seq<Call>, i: nat)
    requires i < |calls| && Logged(log, start, calls, i)
    ensures Logged(log + [calls[i]], start, calls, i + 1)
  {
  }

  /** prev and next are inverse to each other along the list. */
  ghost predicate Linked(head: Node?, nodes: seq<Node>)
    reads nodes
  {
    && head == At(nodes, 0)
    && forall i :: 0 <= i < |nodes| ==> nodes[i].prev == At(nodes, i - 1) && nodes[i].next == At(nodes, i + 1)
  }

  class CallbackList {
    var head: Node?
    ghost var nodes: seq<Node>
    var log: seq<Call>

    /** No node is reached twice: the list is not cyclic. No entry is registered twice. */
    ghost predicate Valid()
      reads this`head, this`nodes, nodes
    {
      Linked(head, nodes) && Distinct(nodes) && Unique(Entries())
    }

    ghost function Entries(): seq<Entry>
      reads this`nodes
    {
      EntriesOf(nodes)
    }

    constructor ()
      ensures Valid() && Entries() == [] && log == []
    {
      head, nodes, log := null, [], [];
    }

    /** The node of an entry, or null. */
    method Find(arg: Pointer, cb: Pointer) returns (r: Node?, ghost k: nat)
      requires Valid()
      ensures k <= |nodes| && r == At(nodes, k)
      ensures forall i :: 0 <= i < k ==> Entries()[i] != Entry(cb, arg)
      ensures if r == null then k == |nodes| && Entry(cb, arg) !in Entries() else EntryOf(r) == Entry(cb, arg)
    {
      r, k := head, 0;
      while r != null && !(r.cb == cb && r.arg == arg)
        invariant k <= |nodes| && r == At(nodes, k)
        invariant forall i :: 0 <= i < k ==> Entries()[i] != Entry(cb, arg)
        decreases |nodes| - k
      {
        r, k := r.next, k + 1;
      }
    }

    /** mallocOk tells whether memory for a new node is available. */
    method AddCallback(arg: Pointer, cb: Pointer, mallocOk: bool) returns (ok: bool)
      requires Valid()
      modifies this`head, this`nodes, nodes
      ensures Valid() && forall n <- nodes :: n in old(nodes) || fresh(n)
      ensures ok == (mallocOk && Entry(cb, arg) !in old(Entries()))
      ensures Entries() == Apply(old(Entries()), Add(Entry(cb, arg), mallocOk))
      ensures Entries() == (if ok then [Entry(cb, arg)] else []) + old(Entries())
    {
      if !mallocOk {
        return false;
      }
      var c := new Node(arg, cb);
      if head == null {
        head, nodes := c, [c];
        return true;
      }
      var r;
      ghost var k;
      r, k := Find(arg, cb);
      if r != null {
        assert Entries()[k] == Entry(cb, arg);
        return false;
      }
      PushFront(c);
      return true;
    }

    method PushFront(c: Node)
      requires Valid() && head != null && c !in nodes && c.prev == null && EntryOf(c) !in Entries()
      modifies this`head, this`nodes, nodes, c
      ensures Valid() && nodes == [c] + old(nodes) && Entries() == [EntryOf(c)] + old(Entries())
    {
      c.next := head;
      head.prev := c;
      head := c;
      nodes := [c] + nodes;
    }

    method RemoveCallback(arg: Pointer, cb: Pointer) returns (ok: bool)
      requires Valid()
      modifies this`head, this`nodes, nodes
      ensures Valid() && forall n <- nodes :: n in old(nodes)
      ensures ok == (Entry(cb, arg) in old(Entries()))
      ensures Entries() == Apply(old(Entries()), Remove(Entry(cb, arg)))
      ensures if ok then exists k :: 0 <= k < |old(Entries())| && old(Entries())[k] == Entry(cb, arg)
                                     && Entries() == old(Entries())[..k] + old(Entries())[k + 1..]
              else Entries() == old(Entries())
    {
      var r;
      ghost var k;
      hide Valid, EntriesOf;
      r, k := Find(arg, cb);
      WithoutAt(Entries(), k, Entry(cb, arg));
      hide Without;
      if r == null {
        return false;
      }
      Unlink(r, k);
      return true;
    }

    method Unlink(r: Node, ghost k: nat)
      requires Valid() && k < |nodes| && r == nodes[k]
      modifies this`head, this`nodes, nodes
      ensures Valid() && nodes == old(nodes)[..k] + old(nodes)[k + 1..]
      ensures Entries() == old(Entries())[..k] + old(Entries())[k + 1..]
    {
      hide EntriesOf, Unique, Distinct, Linked;
      ghost var rest := nodes[..k] + nodes[k + 1..];
      UniqueCut(EntriesOf(nodes), k);
      EntriesCut(nodes, k);
      DistinctCut(nodes, k);
      Relink(r, k);
      nodes := rest;
    }

    method Relink(r: Node, ghost k: nat)
      requires Linked(head, nodes) && Distinct(nodes) && k < |nodes| && r == nodes[k]
      modifies this`head, nodes
      ensures Linked(head, nodes[..k] + nodes[k + 1..])
    {
      assert r.prev == At(nodes, k - 1) && r.next == At(nodes, k + 1);
      if r.prev != null {
        r.prev.next := r.next;
      } else {
        head := r.next;
      }
      if r.next != null {
        r.next.prev := r.prev;
      }
      Relinked(k);
    }

    /** The neighbours of node i when node k is left out. */
    ghost predicate Bypasses(k: nat, i: nat)
      requires i < |nodes|
      reads this`nodes, nodes
    {
      && nodes[i].prev == At(nodes, if i == k + 1 then k - 1 else i - 1)
      && nodes[i].next == At(nodes, if i == k - 1 then k + 1 else i + 1)
    }

    lemma Relinked(k: nat)
      requires k < |nodes| && head == At(nodes, if k == 0 then 1 else 0)
      requires forall i :: 0 <= i < |nodes| && i != k ==> Bypasses(k, i)
      ensures Linked(head, nodes[..k] + nodes[k + 1..])
    {
      var rest := nodes[..k] + nodes[k + 1..];
      assert forall i :: 0 <= i < |rest| ==> rest[i] == nodes[if i < k then i else i + 1];
      forall i | 0 <= i < |rest| ensures rest[i].prev == At(rest, i - 1) && rest[i].next == At(rest, i + 1) {
        assert Bypasses(k, if i < k then i else i + 1);
      }
    }

    /** Calls one callback and goes on to its neighbour. */
    method CallNode(r: Node, event: Event, oldApb: nat, newApb: nat, forward: bool,
                    ghost start: seq<Call>, ghost calls: seq<Call>, ghost done: nat)
      returns (r': Node?)
      requires Valid() && done < |calls| && Planned(calls, event, oldApb, newApb, forward)
      requires r == Place(forward, done) && Logged(log, start, calls, done)
      modifies this`log
      ensures Logged(log, start, calls, done + 1)
      ensures r' == Place(forward, done + 1)
    {
      Neighbour(forward, done);
      var call := Call(Entry(r.cb, r.arg), event, oldApb, newApb);
      assert call == calls[done];
      hide Valid, Place, Planned, Logged;
      LogStep(log, start, calls, done);
      r' := if forward then r.next else r.prev;
      log := log + [call];
    }

    lemma AllPlanned(event: Event, oldApb: nat, newApb: nat)
      ensures Planned(Calls(Entries(), event, oldApb, newApb), event, oldApb, newApb, true)
      ensures Planned(Calls(Reversed(Entries()), event, oldApb, newApb), event, oldApb, newApb, false)
    {
      hide Calls, Reversed, EntriesOf;
    }

    lemma Neighbour(forward: bool, done: nat)
      requires Linked(head, nodes) && done < |nodes|
      ensures var r := Place(forward, done);
              r != null && (if forward then r.next else r.prev) == Place(forward, done + 1)
    {
    }

    /** The node that is reached after a number of steps from either end. */
    ghost function Place(forward: bool, done: nat): Node?
      reads this`nodes
    {
      At(nodes, if forward then done else |nodes| - 1 - done)
    }

    /** One call for every node, from either end. */
    ghost predicate Planned(calls: seq<Call>, event: Event, oldApb: nat, newApb: nat, forward: bool)
      reads this`nodes
    {
      && |calls| == |nodes|
      && forall k :: 0 <= k < |calls| ==>
           Place(forward, k) != null && calls[k] == Call(EntryOf(Place(forward, k)), event, oldApb, newApb)
    }

    method CallFrom(first: Node, event: Event, oldApb: nat, newApb: nat, forward: bool, ghost calls: seq<Call>)
      requires Valid() && first == Place(forward, 0) && Planned(calls, event, oldApb, newApb, forward)
      modifies this`log
      ensures log == old(log) + calls
    {
      ghost var start := log;
      var r: Node? := first;
      ghost var done := 0;
      hide Valid;
      while r != null
        invariant Valid() && done <= |calls| == |nodes| && r == Place(forward, done)
        invariant Logged(log, start, calls, done)
        decreases |calls| - done
      {
        hide Logged, Planned;
        r := CallNode(r, event, oldApb, newApb, forward, start, calls, done);
        done := done + 1;
      }
    }

    /** The node that was added first. */
    method Last() returns (r: Node)
      requires Valid() && head != null
      ensures r == nodes[|nodes| - 1]
    {
      r := head;
      ghost var i := 0;
      while r.next != null
        invariant 0 <= i < |nodes| && r == nodes[i]
        decreases |nodes| - i
      {
        r, i := r.next, i + 1;
      }
    }

    /** Before a change the callbacks are called in the order of the list, afterwards in the
        reverse order. */
    method Trigger(event: Event, oldApb: nat, newApb: nat)
      requires Valid()
      modifies this`log
      ensures log == old(log) + Calls(if event == BeforeChange then Entries() else Reversed(Entries()), event, oldApb, newApb)
    {
      AllPlanned(event, oldApb, newApb);
      hide Planned, Calls, Reversed;
      if head != null {
        if event == BeforeChange {
          CallFrom(head, event, oldApb, newApb, true, Calls(Entries(), event, oldApb, newApb));
        } else {
          var last := Last();
          CallFrom(last, event, oldApb, newApb, false, Calls(Reversed(Entries()), event, oldApb, newApb));
        }
      }
    }

    /** Any history of requests leaves the registered entries, newest first. */
    method Replay(history: seq<Request>)
      requires Valid() && Entries() == []
      modifies this`head, this`nodes, nodes
      ensures Valid() && Entries() == Run(history)
      ensures forall e :: e in Entries() <==> Registered(history, e)
    {
      hide Valid, Entries, Apply;
      var i := 0;
      while i < |history|
        invariant 0 <= i <= |history|
        invariant Valid() && Entries() == Run(history[..i])
        invariant forall n: Node :: n in nodes ==> n in old(nodes) || fresh(n)
      {
        assert history[..i + 1][..i] == history[..i];
        assert forall k :: 0 <= k < |nodes| ==> nodes[k] in nodes;
        Perform(history[i]);
        i := i + 1;
      }
      assert history[..i] == history;
      RunIsRegistered(history);
    }

    method Perform(q: Request)
      requires Valid()
      modifies this`head, this`nodes, nodes
      ensures Valid() && Entries() == Apply(old(Entries()), q)
      ensures forall n <- nodes :: n in old(nodes) || fresh(n)
    {
      hide Valid, Entries, Apply;
      var ok;
      match q {
        case Add(e, mallocOk) => ok := AddCallback(e.arg, e.cb, mallocOk);
        case Remove(e) => ok := RemoveCallback(e.arg, e.cb);
      }
    }
  }

  lemma DistinctCut(nodes: seq<Node>, k: nat)
    requires Distinct(nodes) && k < |nodes|
    ensures Distinct(nodes[..k] + nodes[k + 1..])
  {
  }

  lemma UniqueCut(s: seq<Entry>, k: nat)
    requires Unique(s) && k < |s|
    ensures Unique(s[..k] + s[k + 1..])
  {
  }

  lemma EntriesCut(nodes: seq<Node>, k: nat)
    requires k < |nodes|
    ensures EntriesOf(nodes[..k] + nodes[k + 1..]) == EntriesOf(nodes)[..k] + EntriesOf(nodes)[k + 1..]
  {
    hide EntriesOf;
    var s, e := nodes[..k] + nodes[k + 1..], EntriesOf(nodes);
    var t := e[..k] + e[k + 1..];
    forall i | 0 <= i < |s| ensures EntryOf(s[i]) == t[i] {
      if i < k {
        assert s[i] == nodes[i] && t[i] == e[i];
      } else {
        assert s[i] == nodes[i + 1] && t[i] == e[i + 1];
      }
    }
  }

  lemma {:induction false} WithoutAt(s: seq<Entry>, k: nat, e: Entry)
    requires k <= |s| && (forall i :: 0 <= i < k ==> s[i] != e) && (k < |s| ==> s[k] == e)
    ensures Without(s, e) == if k < |s| then s[..k] + s[k + 1..] else s
  {
    if k > 0 {
      WithoutAt(s[1..], k - 1, e);
      assert k < |s| ==> [s[0]] + (s[1..][..k - 1] + s[1..][k..]) == s[..k] + s[k + 1..];
    }
  }
}
