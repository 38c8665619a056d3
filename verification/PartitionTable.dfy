/** Laying out a partition table: filling in missing offsets and negative sizes, looking for
    overlaps, and the flash size it takes. */
module PartitionTable {
  import opened Options
  import opened Sequences
  import opened Sorting

  const PARTITION_TABLE_SIZE := 0x1000
  const APP_TYPE := 0x00

  /** A partition as it was parsed: no offset means the next free one, a negative size means
      the end of the partition. */
  datatype Request = Request(ptype: int, offset: Option<int>, size: int)

  datatype Region = Region(offset: int, size: int) {
    function End(): int { offset + size }
  }

  function PadTo(ptype: int): int {
    if ptype == APP_TYPE then 0x10000 else 4
  }

  function AlignUp(x: int, ptype: int): int {
    var pad := PadTo(ptype);
    if x % pad != 0 then x + (pad - x % pad) else x
  }

  // ---- What the fix-up has to find ----

  function Place(r: Request, lastEnd: int): Region {
    var offset := if r.offset.Some? then r.offset.value else AlignUp(lastEnd, r.ptype);
    Region(offset, if r.size < 0 then -r.size - offset else r.size)
  }

  /** The end of the last region, or where the first one may start. */
  function EndOf(t: seq<Region>, start: int): int {
    if t == [] then start else t[|t| - 1].End()
  }

  /** The regions of the first n requests, each placed behind the one before. */
  function Placed(rs: seq<Request>, n: nat, start: int): (t: seq<Region>)
    requires n <= |rs|
    ensures |t| == n
  {
    if n == 0 then []
    else
      var t := Placed(rs, n - 1, start);
      t + [Place(rs[n - 1], EndOf(t, start))]
  }

  /** Whether request k gives an offset that is already taken. */
  predicate TooLow(rs: seq<Request>, k: nat, start: int)
    requires k < |rs|
  {
    rs[k].offset.Some? && rs[k].offset.value < EndOf(Placed(rs, k, start), start)
  }

  predicate Accepts(rs: seq<Request>, n: nat, start: int)
    requires n <= |rs|
  {
    forall k :: 0 <= k < n ==> !TooLow(rs, k, start)
  }

  lemma AcceptsOneMore(rs: seq<Request>, k: nat, start: int)
    requires k < |rs|
    ensures Accepts(rs, k + 1, start) <==> Accepts(rs, k, start) && !TooLow(rs, k, start)
  {
  }

  // ---- The fix-up ----

  class Partition {
    const ptype: int
    var offset: Option<int>
    var size: int

    constructor (r: Request)
      ensures View() == r
    {
      ptype, offset, size := r.ptype, r.offset, r.size;
    }

    ghost function View(): Request
      reads this
    {
      Request(ptype, offset, size)
    }
  }

  ghost function Views(ps: seq<Partition>): (rs: seq<Request>)
    reads ps
    ensures |rs| == |ps| && forall i :: 0 <= i < |ps| ==> rs[i] == ps[i].View()
  {
    if ps == [] then [] else [ps[0].View()] + Views(ps[1..])
  }

  /** The request with the offset and size that it got. */
  function Resolved(r: Request, p: Region): Request {
    Request(r.ptype, Some(p.offset), p.size)
  }

  /** Fixes up one partition, given the end of the one before. */
  method FixOne(e: Partition, lastEnd: int) returns (ok: bool, lastEnd': int)
    modifies e
    ensures ok <==> !(old(e.offset).Some? && old(e.offset).value < lastEnd)
    ensures var p := Place(old(e.View()), lastEnd);
            if ok then e.View() == Resolved(old(e.View()), p) && lastEnd' == p.End()
            else e.View() == old(e.View())
  {
    lastEnd' := lastEnd;
    if e.offset.Some? && e.offset.value < lastEnd' {
      return false, lastEnd';
    }
    if e.offset.None? {
      var padTo := if e.ptype == APP_TYPE then 0x10000 else 4;
      if lastEnd' % padTo != 0 {
        lastEnd' := lastEnd' + (padTo - lastEnd' % padTo);
      }
      e.offset := Some(lastEnd');
    }
    if e.size < 0 {
      e.size := -e.size - e.offset.value;
    }
    lastEnd' := e.offset.value + e.size;
    ok := true;
  }

  /** Fails at the first partition whose offset is taken; otherwise every partition gets its
      region. */
  method FixUp(ps: seq<Partition>, tableOffset: int) returns (failed: Option<nat>)
    requires Distinct(ps)
    modifies ps
    ensures var rs, start := old(Views(ps)), tableOffset + PARTITION_TABLE_SIZE;
            match failed
            case Some(k) => k < |rs| && Accepts(rs, k, start) && TooLow(rs, k, start)
            case None =>
              Accepts(rs, |rs|, start) && FixedTo(Views(ps), rs, |rs|, start)
  {
    hide Place, PadTo, Accepts, Views, Placed, FixedTo, Distinct;
    ghost var rs, start := Views(ps), tableOffset + PARTITION_TABLE_SIZE;
    FixedStart(rs, start);
    var lastEnd := tableOffset + PARTITION_TABLE_SIZE;
    for i := 0 to |ps|
      invariant Accepts(rs, i, start) && lastEnd == EndOf(Placed(rs, i, start), start)
      invariant FixedTo(Views(ps), rs, i, start)
    {
      var ok;
      ok, lastEnd := FixNext(ps, i, lastEnd, rs, start);
      AcceptsOneMore(rs, i, start);
      if !ok {
        return Some(i);
      }
    }
    return None;
  }

  /** One pass of the loop, seen from the whole table. */
  method FixNext(ps: seq<Partition>, i: nat, lastEnd: int, ghost rs: seq<Request>, ghost start: int)
    returns (ok: bool, lastEnd': int)
    requires Distinct(ps) && i < |ps| == |rs|
    requires FixedTo(Views(ps), rs, i, start) && lastEnd == EndOf(Placed(rs, i, start), start)
    modifies ps
    ensures ok <==> !TooLow(rs, i, start)
    ensures ok ==> FixedTo(Views(ps), rs, i + 1, start) && lastEnd' == EndOf(Placed(rs, i + 1, start), start)
  {
    hide Views;
    ghost var views := Views(ps);
    FixedStep(views, rs, i, start);
    hide Place, PadTo, Placed, FixedTo, EndOf;
    ok, lastEnd' := FixOne(ps[i], lastEnd);
    assert forall j :: 0 <= j < |ps| && j != i ==> ps[j].View() == views[j];
    assert Views(ps) == views[i := ps[i].View()];
  }

  /** The first n partitions have their regions, the others are as they were. */
  predicate FixedTo(views: seq<Request>, rs: seq<Request>, n: nat, start: int)
    requires n <= |rs|
  {
    && |views| == |rs|
    && (forall j :: 0 <= j < n ==> views[j] == Resolved(rs[j], Placed(rs, n, start)[j]))
    && (forall j :: n <= j < |rs| ==> views[j] == rs[j])
  }

  lemma FixedStart(rs: seq<Request>, start: int)
    ensures FixedTo(rs, rs, 0, start) && Accepts(rs, 0, start) && EndOf(Placed(rs, 0, start), start) == start
  {
  }

  lemma FixedStep(views: seq<Request>, rs: seq<Request>, k: nat, start: int)
    requires k < |rs| && FixedTo(views, rs, k, start)
    ensures |views| == |rs| && views[k] == rs[k]
    ensures EndOf(Placed(rs, k + 1, start), start) == Place(rs[k], EndOf(Placed(rs, k, start), start)).End()
    ensures FixedTo(views[k := Resolved(rs[k], Place(rs[k], EndOf(Placed(rs, k, start), start)))], rs, k + 1, start)
  {
    hide Place, Resolved;
  }

  // ---- What the fix-up promises ----

  lemma {:induction false} PlacedPrefix(rs: seq<Request>, n: nat, k: nat, start: int)
    requires k <= n <= |rs|
    ensures Placed(rs, n, start)[..k] == Placed(rs, k, start)
  {
    if k < n {
      PlacedPrefix(rs, n - 1, k, start);
    }
  }

  /** Every region starts where the one before has ended, or later; the first behind the table. */
  predicate Chained(t: seq<Region>, start: int) {
    forall k {:trigger EndBefore(t, k, start)} :: 0 <= k < |t| ==> EndBefore(t, k, start) <= t[k].offset
  }

  function EndBefore(t: seq<Region>, k: nat, start: int): int
    requires k < |t|
  {
    if k == 0 then start else t[k - 1].End()
  }

  /** A given offset is kept, a missing one is the least aligned offset that is free:
      applications (type 0) are aligned to 64K, all others to 4. A size is kept, a negative one
      gives the end. */
  predicate Serves(p: Region, r: Request, lastEnd: int) {
    var alignment := if r.ptype == 0 then 65536 else 4;
    && (r.offset.Some? ==> p.offset == r.offset.value)
    && (r.offset.None? ==>
          && lastEnd <= p.offset && p.offset % alignment == 0
          && forall y: int :: lastEnd <= y && y % alignment == 0 ==> p.offset <= y)
    && (if r.size < 0 then p.End() == -r.size else p.size == r.size)
  }

  lemma AlignUpIsLeast(x: int, ptype: int, y: int)
    ensures x <= AlignUp(x, ptype) && AlignUp(x, ptype) % PadTo(ptype) == 0
    ensures x <= y && y % PadTo(ptype) == 0 ==> AlignUp(x, ptype) <= y
  {
  }

  lemma PlaceServes(r: Request, lastEnd: int)
    ensures Serves(Place(r, lastEnd), r, lastEnd)
  {
    AlignUpIsLeast(lastEnd, r.ptype, lastEnd);
    forall y: int | lastEnd <= y && y % PadTo(r.ptype) == 0 ensures AlignUp(lastEnd, r.ptype) <= y {
      AlignUpIsLeast(lastEnd, r.ptype, y);
    }
    assert PadTo(r.ptype) == if r.ptype == 0 then 65536 else 4;
    hide AlignUp, PadTo;
  }

  lemma Allocation(rs: seq<Request>, start: int)
    requires Accepts(rs, |rs|, start)
    ensures var t := Placed(rs, |rs|, start);
            && Chained(t, start)
            && forall k :: 0 <= k < |rs| ==> Serves(t[k], rs[k], EndBefore(t, k, start))
  {
    var t := Placed(rs, |rs|, start);
    forall k | 0 <= k < |rs|
      ensures EndBefore(t, k, start) <= t[k].offset && Serves(t[k], rs[k], EndBefore(t, k, start))
    {
      PlacedPrefix(rs, |rs|, k, start);
      PlacedPrefix(rs, |rs|, k + 1, start);
      assert t[k] == t[..k + 1][k];
      assert !TooLow(rs, k, start);
      assert EndBefore(t, k, start) == EndOf(t[..k], start);
      PlaceServes(rs[k], EndBefore(t, k, start));
    }
  }

  /** The fix-up refuses a table iff some partition would start before the one in front of it
      has ended, or before the end of the partition table. */
  lemma AcceptsExactly(rs: seq<Request>, start: int)
    ensures Accepts(rs, |rs|, start) <==> Chained(Placed(rs, |rs|, start), start)
  {
    var t := Placed(rs, |rs|, start);
    if Accepts(rs, |rs|, start) {
      Allocation(rs, start);
    } else {
      var k :| 0 <= k < |rs| && TooLow(rs, k, start);
      PlacedPrefix(rs, |rs|, k, start);
      PlacedPrefix(rs, |rs|, k + 1, start);
      assert t[k] == t[..k + 1][k] == Place(rs[k], EndOf(t[..k], start));
      assert EndBefore(t, k, start) == EndOf(t[..k], start) > t[k].offset;
    }
  }

  predicate Sized(t: seq<Region>) {
    forall p <- t :: p.size >= 0
  }

  /** No region starts below the end of the table or shares a byte with another. */
  predicate Separate(t: seq<Region>, start: int) {
    && (forall i :: 0 <= i < |t| ==> start <= t[i].offset)
    && (forall i, j :: 0 <= i < |t| && 0 <= j < |t| && i != j ==> Apart(t[i], t[j]))
  }

  predicate Apart(p: Region, q: Region) {
    p.End() <= q.offset || q.End() <= p.offset
  }

  lemma {:induction false} InOrder(t: seq<Region>, start: int, i: nat, j: nat)
    requires Chained(t, start) && Sized(t) && i < j < |t|
    ensures t[i].End() <= t[j].offset
  {
    assert EndBefore(t, j, start) <= t[j].offset;
    if i < j - 1 {
      InOrder(t, start, i, j - 1);
    }
  }

  lemma {:induction false} AboveTable(t: seq<Region>, start: int, i: nat)
    requires Chained(t, start) && Sized(t) && i < |t|
    ensures start <= t[i].offset
  {
    assert EndBefore(t, i, start) <= t[i].offset;
    if i > 0 {
      AboveTable(t, start, i - 1);
    }
  }

  lemma ChainedSeparate(t: seq<Region>, start: int)
    requires Chained(t, start) && Sized(t)
    ensures Separate(t, start) && Sorted(t, OffsetOf)
  {
    forall i | 0 <= i < |t| ensures start <= t[i].offset {
      AboveTable(t, start, i);
    }
    forall i, j | 0 <= i < j < |t| ensures t[i].End() <= t[j].offset && OffsetOf(t[i]) <= OffsetOf(t[j]) {
      InOrder(t, start, i, j);
    }
  }

  // ---- Looking for overlaps ----

  function OffsetOf(p: Region): int {
    p.offset
  }

  lemma SameMembers(s: seq<Region>, t: seq<Region>)
    requires multiset(s) == multiset(t)
    ensures forall p :: p in s <==> p in t
  {
    forall p ensures p in s <==> p in t {
      assert p in s <==> p in multiset(s);
    }
  }

  /** What the scan looks at: in order of their offsets, no region is below the end of the
      table or overlaps the one before. */
  ghost predicate Passes(t: seq<Region>, start: int) {
    && (forall p <- t :: start <= p.offset)
    && Chained(Sort(t, OffsetOf), start)
  }

  method OverlapScan(t: seq<Region>, tableOffset: int) returns (ok: bool)
    ensures ok <==> Passes(t, tableOffset + PARTITION_TABLE_SIZE)
  {
    var sorted := Sort(t, OffsetOf);
    SortPermutes(t, OffsetOf);
    SameMembers(sorted, t);
    hide Sort, Sorted;
    ghost var start := tableOffset + PARTITION_TABLE_SIZE;
    var last: Option<Region> := None;
    for i := 0 to |sorted|
      invariant last == if i == 0 then None else Some(sorted[i - 1])
      invariant forall k :: 0 <= k < i ==> start <= sorted[k].offset && EndBefore(sorted, k, start) <= sorted[k].offset
    {
      var p := sorted[i];
      if p.offset < tableOffset + PARTITION_TABLE_SIZE {
        return false;
      }
      if last.Some? && p.offset < last.value.offset + last.value.size {
        assert EndBefore(sorted, i, start) > p.offset;
        return false;
      }
      last := Some(p);
    }
    return true;
  }

  /** A fixed-up table without negative sizes passes the scan, and its regions are apart. */
  lemma FixedUpPasses(rs: seq<Request>, start: int)
    requires Accepts(rs, |rs|, start) && Sized(Placed(rs, |rs|, start))
    ensures var t := Placed(rs, |rs|, start);
            && Separate(t, start) && Passes(t, start)
            && forall i, j :: 0 <= i < j < |t| ==> t[i].End() <= t[j].offset
  {
    var t := Placed(rs, |rs|, start);
    Allocation(rs, start);
    ChainedSeparate(t, start);
    SortedStays(t, OffsetOf);
    hide Placed, Sort, Serves, Accepts, Sorted;
    forall i, j | 0 <= i < j < |t| ensures t[i].End() <= t[j].offset {
      InOrder(t, start, i, j);
    }
  }

  /** What was requested with an end gets one that is not below its offset. */
  predicate EndsFit(rs: seq<Request>, t: seq<Region>) {
    |rs| == |t| && forall k :: 0 <= k < |rs| && rs[k].size < 0 ==> t[k].offset <= -rs[k].size
  }

  /** No size is negative iff no partition is given an end below its own offset. */
  lemma SizedExactly(rs: seq<Request>, start: int)
    ensures var t := Placed(rs, |rs|, start);
            Sized(t) <==> EndsFit(rs, t)
  {
    var t := Placed(rs, |rs|, start);
    forall k | 0 <= k < |rs|
      ensures t[k].size >= 0 <==> (rs[k].size < 0 ==> t[k].offset <= -rs[k].size)
    {
      PlacedPrefix(rs, |rs|, k + 1, start);
      assert t[k] == t[..k + 1][k];
    }
  }

  /** A fixed-up table is in order, apart and accepted by the scan, with no negative size, iff no
      partition is given an end below its own offset. */
  lemma FixedUpExactly(rs: seq<Request>, start: int)
    requires Accepts(rs, |rs|, start)
    ensures var t := Placed(rs, |rs|, start);
            Sized(t) && Separate(t, start) && Passes(t, start) <==> EndsFit(rs, t)
  {
    hide Placed, Separate, Passes, Accepts;
    SizedExactly(rs, start);
    if Sized(Placed(rs, |rs|, start)) {
      FixedUpPasses(rs, start);
    }
  }

  /** Otherwise the fix-up can hand out the same bytes twice. */
  lemma NegativeSizeOverlaps() returns (rs: seq<Request>, start: int)
    ensures Accepts(rs, |rs|, start) && !Separate(Placed(rs, |rs|, start), start)
  {
    start := 0x1000;
    rs := [Request(1, None, 0x4000), Request(1, Some(0x9000), -0x3000), Request(1, None, 0x1000)];
    assert Placed(rs, 1, start) == [Region(0x1000, 0x4000)];
    assert Placed(rs, 2, start) == [Region(0x1000, 0x4000), Region(0x9000, -0x6000)];
    assert Placed(rs, 3, start) == [Region(0x1000, 0x4000), Region(0x9000, -0x6000), Region(0x3000, 0x1000)];
    assert !Apart(Placed(rs, 3, start)[0], Placed(rs, 3, start)[2]);
  }

  predicate AllPositive(t: seq<Region>) {
    forall p <- t :: p.size > 0
  }

  lemma Twice(s: seq<Region>, i: nat, j: nat)
    requires i < j < |s| && s[i] == s[j]
    ensures multiset(s)[s[i]] >= 2
  {
    assert s == s[..j] + s[j..];
    assert s[..j][i] in multiset(s[..j]) && s[j..][0] in multiset(s[j..]);
  }

  lemma TwoPlaces(s: seq<Region>, p: Region) returns (i: nat, j: nat)
    requires multiset(s)[p] >= 2
    ensures i < |s| && j < |s| && i != j && s[i] == s[j] == p
  {
    assert p in s;
    i :| i < |s| && s[i] == p;
    assert s == s[..i] + [p] + s[i + 1..];
    assert p in s[..i] || p in s[i + 1..];
    if p in s[..i] {
      j :| j < i && s[..i][j] == p;
    } else {
      var k: nat :| k < |s| - i - 1 && s[i + 1..][k] == p;
      j := i + 1 + k;
    }
  }

  /** Being separate does not depend on the order. */
  lemma SeparatePermuted(s: seq<Region>, t: seq<Region>, start: int)
    requires multiset(s) == multiset(t) && Separate(s, start)
    ensures Separate(t, start)
  {
    SameMembers(s, t);
    forall i | 0 <= i < |t| ensures start <= t[i].offset {
      assert t[i] in s;
    }
    forall i, j | 0 <= i < j < |t| ensures Apart(t[i], t[j]) {
      if t[i] == t[j] {
        Twice(t, i, j);
        var k, l := TwoPlaces(s, t[i]);
        assert Apart(s[k], s[l]);
      } else {
        assert t[i] in s && t[j] in s;
        var k :| 0 <= k < |s| && s[k] == t[i];
        var l :| 0 <= l < |s| && s[l] == t[j];
        assert Apart(s[k], s[l]);
      }
    }
  }

  /** Comparing neighbours is enough: a table that passes the scan has no overlap at all. For
      positive sizes that is all that it needs to pass. */
  lemma ScanIsExact(t: seq<Region>, start: int)
    requires Sized(t)
    ensures Passes(t, start) ==> Separate(t, start)
    ensures AllPositive(t) ==> (Passes(t, start) <==> Separate(t, start))
  {
    var s := Sort(t, OffsetOf);
    SortPermutes(t, OffsetOf);
    SortSorts(t, OffsetOf);
    SameMembers(s, t);
    hide Sort;
    if Chained(s, start) {
      ChainedSeparate(s, start);
      SeparatePermuted(s, t, start);
    }
    if AllPositive(t) && Separate(t, start) {
      SeparatePermuted(t, s, start);
      SeparateChained(s, start);
    }
  }

  lemma SeparateChained(s: seq<Region>, start: int)
    requires Separate(s, start) && Sorted(s, OffsetOf) && AllPositive(s)
    ensures Chained(s, start)
  {
  }

  // ---- The flash size ----

  function Descending(p: Region): int {
    -p.offset
  }

  /** The first of the regions with the largest offset. */
  predicate Topmost(t: seq<Region>, i: nat) {
    && i < |t|
    && forall j :: 0 <= j < |t| ==> if j < i then t[j].offset < t[i].offset else t[j].offset <= t[i].offset
  }

  method FlashSize(t: seq<Region>) returns (size: int)
    ensures t == [] ==> size == 0
    ensures t != [] ==> exists i: nat :: Topmost(t, i) && size == t[i].End()
  {
    var sorted := Sort(t, Descending);
    if sorted == [] {
      return 0;
    }
    ghost var i := FirstOfSorted(t, Descending);
    assert forall j :: 0 <= j < |t| ==> Descending(t[j]) == -t[j].offset;
    assert Topmost(t, i);
    var last := sorted[0];
    return last.offset + last.size;
  }

  predicate IsMaxEnd(t: seq<Region>, m: int) {
    (exists p <- t :: p.End() == m) && forall p <- t :: p.End() <= m
  }

  /** The flash size is where the table ends iff no region at the largest offset is longer
      than the first one there. */
  lemma FlashSizeExact(t: seq<Region>, start: int, i: nat)
    requires Sized(t) && Separate(t, start) && Topmost(t, i)
    ensures IsMaxEnd(t, t[i].End()) <==> forall q <- t :: q.offset == t[i].offset ==> q.size <= t[i].size
    ensures AllPositive(t) ==> IsMaxEnd(t, t[i].End())
  {
  }

  lemma TwoChained(p: Region, q: Region, start: int)
    requires start <= p.offset && 0 <= p.size && p.End() <= q.offset && 0 <= q.size
    ensures Sized([p, q]) && Separate([p, q], start) && Passes([p, q], start)
  {
  }

  /** Zero sizes can break it, in a table that the scan accepts. */
  lemma ZeroSizeHidesEnd(start: int)
    requires start <= 0x10000
    ensures var t := [Region(0x10000, 0), Region(0x10000, 0x1000)];
            && Sized(t) && Separate(t, start) && Passes(t, start)
            && Topmost(t, 0) && !IsMaxEnd(t, t[0].End())
  {
    var p, q := Region(0x10000, 0), Region(0x10000, 0x1000);
    TwoChained(p, q, start);
    hide Passes, Separate, Sized;
    assert q in [p, q];
  }
}
