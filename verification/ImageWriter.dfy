/** Writing a firmware image: placing the segments, then checksum, segment count and digest. */
module ImageWriter {
  import opened Arithmetic
  import opened Sequences
  import opened Sorting
  import opened LittleEndian
  import opened ImageFormat
  import opened ImageLayout

  const IROM_MAP_START := 0x400d0000
  const IROM_MAP_END := 0x40400000
  const DROM_MAP_START := 0x3F400000
  const DROM_MAP_END := 0x3F800000

  predicate IsFlashAddr(addr: nat) {
    IROM_MAP_START <= addr < IROM_MAP_END || DROM_MAP_START <= addr < DROM_MAP_END
  }

  // ---- Order and selection of the segments ----

  function AddrOf(x: Segment): int {
    x.addr
  }

  function SortByAddr(s: seq<Segment>): seq<Segment> {
    Sort(s, AddrOf)
  }

  function Mapped(s: seq<Segment>, flash: bool): (r: seq<Segment>)
    ensures forall x <- r :: x in s && IsFlashAddr(x.addr) == flash
  {
    if s == [] then []
    else if IsFlashAddr(s[0].addr) == flash then [s[0]] + Mapped(s[1..], flash)
    else Mapped(s[1..], flash)
  }

  lemma SortWithin(s: seq<Segment>)
    requires Within(s)
    ensures Within(SortByAddr(s))
  {
    SortPermutes(s, AddrOf);
    var t := SortByAddr(s);
    forall i | 0 <= i < |t| ensures t[i].addr + |t[i].data| + 0x24 < TWO32 {
      assert t[i] in multiset(t);
      assert t[i] in s;
    }
  }

  lemma MappedWithin(s: seq<Segment>, flash: bool)
    requires Within(s)
    ensures Within(Mapped(s, flash))
  {
  }

  lemma {:induction false} MappedAll(s: seq<Segment>)
    ensures multiset(Mapped(s, true)) + multiset(Mapped(s, false)) == multiset(s)
  {
    if s != [] {
      MappedAll(s[1..]);
      assert s == [s[0]] + s[1..];
    }
  }

  lemma {:induction false} MappedSorted(s: seq<Segment>, flash: bool)
    requires Sorted(s, AddrOf)
    ensures Sorted(Mapped(s, flash), AddrOf)
  {
    if s != [] {
      MappedSorted(s[1..], flash);
      var rest := Mapped(s[1..], flash);
      forall i | 0 <= i < |rest| ensures AddrOf(s[0]) <= AddrOf(rest[i]) {
        assert rest[i] in s[1..];
      }
    }
  }

  lemma WithAddrConcat(x: Segment, s: seq<Segment>, k: int)
    ensures WithKey([x] + s, AddrOf, k) == (if x.addr == k then [x] else []) + WithKey(s, AddrOf, k)
  {
    if s == [] {
      assert [x] + s == [x];
    } else {
      assert ([x] + s)[..|s|] == [x] + s[..|s| - 1];
      WithAddrConcat(x, s[..|s| - 1], k);
    }
  }

  lemma {:induction false} MappedStable(s: seq<Segment>, flash: bool, k: nat)
    ensures WithKey(Mapped(s, flash), AddrOf, k) == if IsFlashAddr(k) == flash then WithKey(s, AddrOf, k) else []
  {
    if s != [] {
      MappedStable(s[1..], flash, k);
      WithAddrConcat(s[0], s[1..], k);
      WithAddrConcat(s[0], Mapped(s[1..], flash), k);
      assert s == [s[0]] + s[1..];
    }
  }

  /** The segments mapped to flash and those loaded to RAM: each segment is in one of the two,
      both are in the order of the addresses, and equal addresses keep their order. */
  lemma Selected(segments: seq<Segment>)
    ensures var flash, ram := Mapped(SortByAddr(segments), true), Mapped(SortByAddr(segments), false);
            && multiset(flash) + multiset(ram) == multiset(segments)
            && (forall s <- flash :: 0x400d0000 <= s.addr < 0x40400000 || 0x3F400000 <= s.addr < 0x3F800000)
            && (forall s <- ram :: !(0x400d0000 <= s.addr < 0x40400000 || 0x3F400000 <= s.addr < 0x3F800000))
            && (forall i, j :: 0 <= i < j < |flash| ==> flash[i].addr <= flash[j].addr)
            && (forall i, j :: 0 <= i < j < |ram| ==> ram[i].addr <= ram[j].addr)
            && (forall a: nat {:trigger WithKey(ram, AddrOf, a)} :: WithKey(flash, AddrOf, a) + WithKey(ram, AddrOf, a) == WithKey(segments, AddrOf, a))
  {
    var sorted := SortByAddr(segments);
    var flash, ram := Mapped(sorted, true), Mapped(sorted, false);
    SortPermutes(segments, AddrOf);
    SortSorts(segments, AddrOf);
    MappedAll(sorted);
    MappedSorted(sorted, true);
    MappedSorted(sorted, false);
    InOrder(flash);
    InOrder(ram);
    hide Mapped, WithKey, Sorted;
    forall a: nat {:trigger WithKey(ram, AddrOf, a)}
      ensures WithKey(flash, AddrOf, a) + WithKey(ram, AddrOf, a) == WithKey(segments, AddrOf, a)
    {
      MappedStable(sorted, true, a);
      MappedStable(sorted, false, a);
      SortStable(segments, AddrOf, a);
    }
  }

  lemma InOrder(s: seq<Segment>)
    requires Sorted(s, AddrOf)
    ensures forall i, j :: 0 <= i < j < |s| ==> s[i].addr <= s[j].addr
  {
    assert forall i, j :: 0 <= i < j < |s| ==> AddrOf(s[i]) <= AddrOf(s[j]);
  }

  /** Neighbours lie in different 64K pages of the flash mapping. */
  predicate DistinctPages(flash: seq<Segment>) {
    forall i :: 1 <= i < |flash| ==> flash[i].addr / IROM_ALIGN != flash[i - 1].addr / IROM_ALIGN
  }

  /** Sorted by address, that is enough for any two segments. */
  lemma {:induction false} PagesAllDistinct(flash: seq<Segment>, i: nat, j: nat)
    requires Sorted(flash, AddrOf) && DistinctPages(flash) && i < j < |flash|
    ensures flash[i].addr / IROM_ALIGN < flash[j].addr / IROM_ALIGN
  {
    assert AddrOf(flash[j - 1]) <= AddrOf(flash[j]);
    if i + 1 < j {
      PagesAllDistinct(flash, i, j - 1);
    }
  }

  // ---- The image as a whole ----

  type Digest = d: seq<byte> | |d| == 32 witness Zeros(32)

  datatype Header = Header(flashMode: byte, flashSizeFreq: byte, entrypoint: nat, extended: seq<byte>, appendDigest: bool) {
    predicate Valid() { entrypoint < TWO32 && |extended| == 15 }
  }

  function HeaderBytes(h: Header, count: byte): (b: seq<byte>)
    requires h.Valid()
    ensures |b| == HEADER_LEN
  {
    [IMAGE_MAGIC, count, h.flashMode, h.flashSizeFreq] + Word(h.entrypoint)
    + h.extended + [if h.appendDigest then 1 else 0]
  }

  /** Header, segments and checksum, without the digest. */
  function ImageBytes(h: Header, segs: seq<Segment>): seq<byte>
    requires h.Valid() && |segs| < 256
  {
    HeaderBytes(h, |segs|) + Body(segs) + Zeros(AlignTail(HEADER_LEN + |Body(segs)|)) + [SegmentsChecksum(segs)]
  }

  /** Where the parts of a file stand. */
  lemma FileLayout(h: Header, segs: seq<Segment>)
    requires h.Valid() && |segs| < 256
    ensures var f, n := ImageBytes(h, segs), 24 + |Body(segs)|;
            && n < |f| <= n + 16 && |f| % 16 == 0
            && f[0] == 0xe9 && f[1] == |segs| && f[2] == h.flashMode && f[3] == h.flashSizeFreq
            && Stored(f, 4, h.entrypoint) && f[8..23] == h.extended && f[23] == (if h.appendDigest then 1 else 0)
            && f[24..n] == Body(segs) && (forall i :: n <= i < |f| - 1 ==> f[i] == 0)
            && f[|f| - 1] == SegmentsChecksum(segs)
  {
    var f, head := ImageBytes(h, segs), HeaderBytes(h, |segs|);
    hide Body, SegmentsChecksum, AlignTail;
    assert f[..24] == head;
    assert head[8..23] == f[8..23] && head[23] == f[23];
    WordStored(head, 4, h.entrypoint);
  }

  function WithDigest(h: Header, image: seq<byte>, sha256: seq<byte> -> Digest): seq<byte> {
    if h.appendDigest then image + sha256(image) else image
  }

  datatype SecurePad = NoPad | V1 | V2

  /** Bytes that follow the checksum before the 64K boundary: the digest, and for the first
      scheme also version, signature and trailing alignment. */
  function SpaceAfterChecksum(pad: SecurePad): nat {
    match pad
    case NoPad => 0
    case V1 => 32 + 4 + 64 + 12
    case V2 => 32
  }

  function SecurePadLen(pos: nat, pad: SecurePad): nat {
    (IROM_ALIGN - (pos + SEG_HEADER_LEN) % IROM_ALIGN - 16 - SpaceAfterChecksum(pad)) % IROM_ALIGN
  }

  /** With that much padding the image and the reserved tail end on a 64K boundary. */
  lemma SecurePadEndsPage(pos: nat, pad: SecurePad)
    requires pad != NoPad
    ensures var end := pos + SEG_HEADER_LEN + SecurePadLen(pos, pad);
            (end + AlignTail(end) + 1 + SpaceAfterChecksum(pad)) % IROM_ALIGN == 0
  {
    var start, space := pos + SEG_HEADER_LEN, SpaceAfterChecksum(pad);
    var end := start + SecurePadLen(pos, pad);
    assert space % 16 == 0;
    hide SpaceAfterChecksum;
    RoundUp(start, space);
    assert end % 16 == 0;
  }

  lemma RoundUp(start: nat, space: nat)
    ensures (start + (IROM_ALIGN - start % IROM_ALIGN - 16 - space) % IROM_ALIGN + 16 + space) % IROM_ALIGN == 0
  {
    var x := IROM_ALIGN - start % IROM_ALIGN - 16 - space;
    var pages := start / IROM_ALIGN + 1 - x / IROM_ALIGN;
    assert start + x % IROM_ALIGN + 16 + space == IROM_ALIGN * pages;
  }

  lemma SecurePadWordSized(pos: nat, pad: SecurePad)
    requires pos % 4 == 0
    ensures SecurePadLen(pos, pad) % 4 == 0
  {
    var start, space := pos + SEG_HEADER_LEN, SpaceAfterChecksum(pad);
    assert space % 4 == 0;
    hide SpaceAfterChecksum;
    PageOffsetWordSized(start);
    WordsLeft(start % IROM_ALIGN, space);
    PageOffsetWordSized(IROM_ALIGN - start % IROM_ALIGN - 16 - space);
  }

  lemma WordsLeft(a: int, b: int)
    requires a % 4 == 0 && b % 4 == 0
    ensures (IROM_ALIGN - a - 16 - b) % 4 == 0
  {
  }

  lemma PageOffsetWordSized(x: int)
    requires x % 4 == 0
    ensures x % IROM_ALIGN % 4 == 0
  {
    assert x % IROM_ALIGN == x - IROM_ALIGN * (x / IROM_ALIGN);
    assert IROM_ALIGN * (x / IROM_ALIGN) == 4 * (0x4000 * (x / IROM_ALIGN));
  }

  // ---- Segments that are taken apart ----

  class ImageSegment {
    var addr: nat
    var data: seq<byte>

    constructor (s: Segment)
      ensures View() == s
    {
      addr, data := s.addr, s.data;
    }

    ghost function View(): Segment
      reads this
    {
      Segment(addr, data)
    }

    /** Cuts off the first bytes. */
    method SplitImage(splitLen: nat) returns (piece: ImageSegment)
      modifies this
      ensures fresh(piece)
      ensures var n := if splitLen < |old(data)| then splitLen else |old(data)|;
              && piece.View() == Segment(old(addr), old(data)[..n])
              && data == old(data)[n..] && addr == old(addr) + splitLen
    {
      var n := if splitLen < |data| then splitLen else |data|;
      piece := new ImageSegment(Segment(addr, data[..n]));
      data := data[n..];
      addr := addr + splitLen;
    }
  }

  ghost function Views(ss: seq<ImageSegment>): (vs: seq<Segment>)
    reads ss
    ensures |vs| == |ss|
    ensures forall i :: 0 <= i < |ss| ==> vs[i] == ss[i].View()
  {
    if ss == [] then [] else [ss[0].View()] + Views(ss[1..])
  }

  /** What splitting the first segment means for the bytes that are still to be loaded. */
  lemma SplitCells(ram: seq<Segment>, n: nat)
    requires ram != [] && n <= |ram[0].data|
    ensures var s := ram[0];
            var piece, left := Segment(s.addr, s.data[..n]), Segment(s.addr + n, s.data[n..]);
            && SegmentCells(piece) + Cells([left] + ram[1..]) == Cells(ram)
            && (n == |s.data| ==> SegmentCells(piece) + Cells(ram[1..]) == Cells(ram))
  {
  }

  /** Both parts of a segment are as tidy as the segment. */
  lemma SplitTidy(ram: seq<Segment>, n: nat)
    requires ram != [] && n <= |ram[0].data| && Within(ram)
    ensures var s := ram[0];
            var piece, left := Segment(s.addr, s.data[..n]), Segment(s.addr + n, s.data[n..]);
            && piece.Fits() && Within(ram[1..]) && Within([left] + ram[1..])
            && (AllWordSized(ram) ==> AllWordSized(ram[1..]))
            && (AllWordSized(ram) && n % 4 == 0 ==> WordSized(piece) && AllWordSized([left] + ram[1..]))
            && (AllWordSized(ram) && n == |s.data| ==> WordSized(piece))
  {
  }

  /** The plan goes on with a piece of the first RAM segment. */
  lemma RamStep(blocks: seq<Block>, flash: seq<Segment>, k: nat, ram: seq<Segment>, padLen: nat)
    requires k < |flash| && ram != [] && padLen > SEG_HEADER_LEN && padLen == PadNeeded(End(blocks), flash[k].addr)
    ensures var n := Taken(padLen, ram[0]);
            NextStep(Plan(blocks, k, ram), flash) == Plan(blocks + [Block(Ram, FirstPart(ram[0], n))], k, Remaining(ram, n))
  {
  }

  lemma PlacingFacts(blocks: seq<Block>, flash: seq<Segment>, k: nat, ram0: seq<Segment>, ram: seq<Segment>)
    requires Placing(blocks, flash, k, ram0, ram)
    ensures Within(ram) && Within(flash)
    ensures AllWordSized(flash) && AllWordSized(ram0) ==> AllWordSized(ram)
    ensures AllWordSized(flash) && AllWordSized(ram0) && k < |flash| ==> PadNeeded(End(blocks), flash[k].addr) % 4 == 0
  {
    if AllWordSized(flash) && AllWordSized(ram0) && k < |flash| {
      PadWordSized(blocks, flash[k]);
    }
  }

  // ---- The writer ----

  datatype Step = AssertionFailed | FlashPlaced | BlockAdded

  /** The assertion fails exactly for a gap of 8 bytes, and then nothing was written. A block
      in front of a flash segment uses up a RAM segment or closes the gap. */
  predicate Stepped(step: Step, pos: nat, pos': nat, addr: nat, ram: nat, ram': nat) {
    && (step == AssertionFailed <==> RawPad(pos, addr) == SEG_HEADER_LEN)
    && (step == AssertionFailed ==> pos' == pos)
    && (step == FlashPlaced ==> ram' == ram)
    && (step == BlockAdded ==> ram' < ram || (ram' == ram && PadNeeded(pos', addr) == 0 < PadNeeded(pos, addr)))
  }

  datatype SaveResult =
    | Saved(image: seq<byte>)
    | SameMapping       // two segments in one 64K page of the flash mapping
    | Misaligned        // the assertion in front of a flash segment failed
    | TooManySegments   // the count does not fit its byte
    | NoDigest          // secure padding without a digest

  /** The file that is being written, in memory, with its running checksum. */
  class ImageWriter {
    var f: seq<byte>
    var checksum: byte
    var totalSegments: nat
    ghost var header: seq<byte>
    ghost var blocks: seq<Block>

    ghost predicate Valid()
      reads this
    {
      && |header| == HEADER_LEN
      && f == header + Body(Segments(blocks))
      && checksum == SegmentsChecksum(Segments(blocks))
      && totalSegments == |blocks|
    }

    constructor (header: seq<byte>)
      requires |header| == HEADER_LEN
      ensures Valid() && blocks == [] && this.header == header && |f| == End(blocks)
    {
      f, checksum, totalSegments := header, CHECKSUM_MAGIC, 0;
      this.header, blocks := header, [];
    }

    lemma Position()
      requires Valid()
      ensures |f| == End(blocks)
    {
    }

    method SaveSegment(s: Segment, ghost origin: Origin)
      requires Valid()
      modifies this
      ensures Valid() && header == old(header) && blocks == old(blocks) + [Block(origin, s)]
      ensures |f| == old(|f|) + SEG_HEADER_LEN + |s.data|
    {
      ghost var b, segs := Block(origin, s), Segments(blocks);
      EndAppend(blocks, b);
      BodyAppend(segs, s);
      ChecksumAppend(segs, s);
      Assoc(header, Body(segs), Encode(s));
      hide Body, SegmentsChecksum, Encode;
      f := f + Encode(s);
      checksum := Checksum(s.data, checksum);
      totalSegments := totalSegments + 1;
      blocks := blocks + [b];
    }

    /** Where a flash segment has to be preceded by a block: a piece of the first RAM segment
        if there is one and the block is larger than a header, else zeros. */
    method PlacePad(padLen: nat, ram: seq<ImageSegment>, ghost flash: seq<Segment>, ghost k: nat, ghost ram0: seq<Segment>)
      returns (ram': seq<ImageSegment>)
      requires Valid() && Distinct(ram) && Placing(blocks, flash, k, ram0, Views(ram))
      requires k < |flash| && 0 < padLen < TWO32 && padLen == PadNeeded(|f|, flash[k].addr)
      requires AllWordSized(flash) && AllWordSized(ram0) ==> padLen % 4 == 0
      modifies this, ram
      ensures Valid() && Distinct(ram') && header == old(header) && forall s <- ram' :: s in ram
      ensures Placing(blocks, flash, k, ram0, Views(ram'))
      ensures |ram'| < |ram| || (|ram'| == |ram| && |f| == old(|f|) + SEG_HEADER_LEN + padLen)
    {
      hide Placing, Cells, AllWordSized, WordSized, Within, Valid, Distinct, Views, PadNeeded, End;
      if |ram| > 0 && padLen > SEG_HEADER_LEN {
        ram' := PadFromRam(padLen, ram, flash, k, ram0);
      } else {
        ram' := ram;
        Position();
        PlacePadding(blocks, flash, k, ram0, Views(ram), padLen);
        SaveSegment(Segment(0, Zeros(padLen)), Padding);
      }
    }

    method PadFromRam(padLen: nat, ram: seq<ImageSegment>, ghost flash: seq<Segment>, ghost k: nat, ghost ram0: seq<Segment>)
      returns (ram': seq<ImageSegment>)
      requires Valid() && Distinct(ram) && Placing(blocks, flash, k, ram0, Views(ram)) && |ram| > 0
      requires k < |flash| && padLen > SEG_HEADER_LEN && padLen == PadNeeded(|f|, flash[k].addr)
      requires AllWordSized(flash) && AllWordSized(ram0) ==> padLen % 4 == 0
      modifies this, ram
      ensures Valid() && Distinct(ram') && header == old(header) && forall s <- ram' :: s in ram
      ensures Placing(blocks, flash, k, ram0, Views(ram'))
      ensures |ram'| < |ram| || (|ram'| == |ram| && |f| == old(|f|) + SEG_HEADER_LEN + padLen)
    {
      hide Placing, Cells, AllWordSized, WordSized, Within, Distinct, NextStep, Remaining, PadNeeded, End, FirstPart, Taken;
      ghost var views := Views(ram);
      PlacingFacts(blocks, flash, k, ram0, views);
      Position();
      RamStep(blocks, flash, k, views, padLen);
      var piece;
      piece, ram' := SplitFirst(ram, padLen);
      PlaceRam(blocks, flash, k, ram0, views, piece, Views(ram'));
      SaveSegment(piece, Ram);
    }

    /** A piece of the first RAM segment, which is dropped when nothing of it is left. */
    method SplitFirst(ram: seq<ImageSegment>, padLen: nat) returns (piece: Segment, ram': seq<ImageSegment>)
      requires |ram| > 0 && Distinct(ram) && Within(Views(ram))
      modifies ram
      ensures Distinct(ram') && forall s <- ram' :: s in ram
      ensures piece.Fits() && Within(Views(ram'))
      ensures piece == old(FirstPart(Views(ram)[0], Taken(padLen, Views(ram)[0])))
      ensures Views(ram') == old(Remaining(Views(ram), Taken(padLen, Views(ram)[0])))
      ensures padLen % 4 == 0 && old(AllWordSized(Views(ram))) ==> WordSized(piece) && AllWordSized(Views(ram'))
      ensures SegmentCells(piece) + Cells(Views(ram')) == old(Cells(Views(ram)))
      ensures |ram'| < |ram| || (|ram'| == |ram| && |piece.data| == padLen)
    {
      hide Cells, SegmentCells, Within, AllWordSized, WordSized, Views;
      ghost var views := Views(ram);
      ghost var n := Taken(padLen, views[0]);
      SplitCells(views, n);
      SplitTidy(views, n);
      var cut := ram[0].SplitImage(padLen);
      piece := Segment(cut.addr, cut.data);
      ram' := if |ram[0].data| == 0 then ram[1..] else ram;
      assert forall j :: 1 <= j < |ram| ==> ram[j].View() == views[j];
      assert Views(ram') == Remaining(views, n);
    }

    /** One pass of the placement loop over the next flash segment. */
    method PlaceOne(segment: Segment, ram: seq<ImageSegment>, ghost flash: seq<Segment>, ghost k: nat, ghost ram0: seq<Segment>)
      returns (step: Step, ram': seq<ImageSegment>)
      requires Valid() && Distinct(ram) && Placing(blocks, flash, k, ram0, Views(ram))
      requires k < |flash| && segment == flash[k]
      modifies this, ram
      ensures Valid() && Distinct(ram') && header == old(header) && forall s <- ram' :: s in ram
      ensures Placing(blocks, flash, if step == FlashPlaced then k + 1 else k, ram0, Views(ram'))
      ensures Stepped(step, old(|f|), |f|, segment.addr, |ram|, |ram'|)
    {
      hide Placing, End, Valid, Distinct, PadNeeded, RawPad, Views, AllWordSized, AlignedAt;
      var padLen := PadNeeded(|f|, segment.addr);
      PlaceFacts(flash, k, ram0, Views(ram));
      if padLen > 0 {
        ram' := PlacePad(padLen, ram, flash, k, ram0);
        step := BlockAdded;
      } else if !AlignedAt(|f|, segment.addr) {
        step, ram' := AssertionFailed, ram;
      } else {
        SaveFlashSegment(segment, ram, flash, k, ram0);
        step, ram' := FlashPlaced, ram;
      }
    }

    lemma PlaceFacts(flash: seq<Segment>, k: nat, ram0: seq<Segment>, ram: seq<Segment>)
      requires Valid() && Placing(blocks, flash, k, ram0, ram) && k < |flash|
      ensures var padLen := PadNeeded(|f|, flash[k].addr);
              && padLen < TWO32
              && (AllWordSized(flash) && AllWordSized(ram0) ==> padLen % 4 == 0)
              && (padLen > 0 ==> PadNeeded(|f| + SEG_HEADER_LEN + padLen, flash[k].addr) == 0)
              && (padLen == 0 && !AlignedAt(|f|, flash[k].addr) <==> RawPad(|f|, flash[k].addr) == SEG_HEADER_LEN)
    {
      Position();
      PlacingFacts(blocks, flash, k, ram0, ram);
      hide Placing, End;
      var padLen := PadNeeded(|f|, flash[k].addr);
      assert padLen < TWO32;
      hide PadNeeded;
      PadCloses(|f|, flash[k].addr);
      PadCloses(|f| + SEG_HEADER_LEN + padLen, flash[k].addr);
    }

    method SaveFlashSegment(segment: Segment, ghost ram: seq<ImageSegment>, ghost flash: seq<Segment>, ghost k: nat, ghost ram0: seq<Segment>)
      requires Valid() && Placing(blocks, flash, k, ram0, Views(ram))
      requires k < |flash| && segment == flash[k] && AlignedAt(|f|, segment.addr)
      modifies this
      ensures Valid() && header == old(header)
      ensures Placing(blocks, flash, k + 1, ram0, Views(ram))
    {
      Position();
      hide Placing, End, Views, Valid;
      var w := FlashWritten(segment, |f|);
      PlaceFlash(blocks, flash, k, ram0, Views(ram), w);
      SaveSegment(w, Flash);
    }

    method PlaceNext(flash: seq<Segment>, i: nat, ram: seq<ImageSegment>, ghost ram0: seq<Segment>)
      returns (failed: bool, i': nat, ram': seq<ImageSegment>)
      requires Valid() && Distinct(ram) && i < |flash| && Placing(blocks, flash, i, ram0, Views(ram))
      modifies this, ram
      ensures Valid() && Distinct(ram') && header == old(header) && forall s: ImageSegment :: s in ram' ==> s in ram
      ensures i <= i' <= |flash| && Placing(blocks, flash, i', ram0, Views(ram'))
      ensures failed ==> i' < |flash| && RawPad(|f|, flash[i'].addr) == SEG_HEADER_LEN
      ensures failed || i' > i || |ram'| < |ram| ||
              (|ram'| == |ram| && Gap(|f|, flash, i) < Gap(old(|f|), flash, i))
    {
      hide Placing, Valid, Distinct, PadNeeded, RawPad, Views;
      var step;
      step, ram' := PlaceOne(flash[i], ram, flash, i, ram0);
      failed := step == AssertionFailed;
      i' := if step == FlashPlaced then i + 1 else i;
    }

    /** The placement loop: all flash segments, each at its mapped offset. */
    method PlaceAll(flash: seq<Segment>, ram: seq<ImageSegment>, ghost ram0: seq<Segment>)
      returns (ok: bool, ram': seq<ImageSegment>, ghost k: nat)
      requires Valid() && Distinct(ram) && Placing(blocks, flash, 0, ram0, Views(ram))
      modifies this, ram
      ensures Valid() && Distinct(ram') && header == old(header) && forall s <- ram' :: s in ram
      ensures k <= |flash| && Placing(blocks, flash, k, ram0, Views(ram'))
      ensures if ok then k == |flash| else k < |flash| && RawPad(|f|, flash[k].addr) == SEG_HEADER_LEN
    {
      hide Placing, RawPad, Distinct, Valid, Gap, Views;
      var i := 0;
      var failed := false;
      ram' := ram;
      while i < |flash| && !failed
        invariant 0 <= i <= |flash| && Valid() && Distinct(ram') && header == old(header)
        invariant forall s: ImageSegment :: s in ram' ==> s in ram
        invariant Placing(blocks, flash, i, ram0, Views(ram'))
        invariant failed ==> i < |flash| && RawPad(|f|, flash[i].addr) == SEG_HEADER_LEN
        decreases !failed, |flash| - i, |ram'|, Gap(|f|, flash, i)
      {
        assert forall j :: 0 <= j < |ram'| ==> ram'[j] in ram';
        failed, i, ram' := PlaceNext(flash, i, ram', ram0);
      }
      ok, k := !failed, i;
    }

    method SaveOne(ram: seq<ImageSegment>, i: nat, ghost flash: seq<Segment>, ghost ram0: seq<Segment>)
      requires Valid() && i < |ram| && Placing(blocks, flash, |flash|, ram0, Views(ram)[i..])
      modifies this
      ensures Valid() && header == old(header) && Placing(blocks, flash, |flash|, ram0, Views(ram)[i + 1..])
    {
      hide Placing, Valid, Views;
      ghost var views := Views(ram);
      var s := Segment(ram[i].addr, ram[i].data);
      assert s == views[i];
      PlaceWhole(blocks, flash, ram0, views, i);
      SaveSegment(s, Ram);
    }

    /** The RAM segments that are left when all flash segments have been placed. */
    method SaveRest(ram: seq<ImageSegment>, ghost flash: seq<Segment>, ghost ram0: seq<Segment>)
      requires Valid() && Placing(blocks, flash, |flash|, ram0, Views(ram))
      modifies this
      ensures Valid() && header == old(header) && Layout(blocks, flash, ram0) && Planned(blocks, flash, |flash|, ram0, [])
    {
      hide Placing, Layout, Valid, Views, Planned;
      assert Views(ram)[0..] == Views(ram);
      var i := 0;
      while i < |ram|
        invariant 0 <= i <= |ram| && Valid() && header == old(header)
        invariant Placing(blocks, flash, |flash|, ram0, Views(ram)[i..])
      {
        SaveOne(ram, i, flash, ram0);
        i := i + 1;
      }
      assert Views(ram)[|ram|..] == [];
      PlaceEnd(blocks, flash, ram0);
    }

    /** Padding behind the last segment, so that the signed image ends on a 64K boundary. */
    method SecurePadding(pad: SecurePad, ghost flash: seq<Segment>, ghost ram0: seq<Segment>)
      requires Valid() && Layout(blocks, flash, ram0) && Planned(blocks, flash, |flash|, ram0, [])
      modifies this
      ensures Valid() && header == old(header) && Layout(blocks, flash, ram0)
      ensures PlannedWith(blocks, flash, ram0, pad)
      ensures pad != NoPad ==> (|f| + AlignTail(|f|) + 1 + SpaceAfterChecksum(pad)) % IROM_ALIGN == 0
    {
      hide Layout, Valid, SecurePadLen, Planned, PlannedWith, End, SpaceAfterChecksum, AlignTail;
      Position();
      SecureBlock(blocks, flash, ram0, pad);
      if pad != NoPad {
        var padLen := SecurePadLen(|f|, pad);
        SaveSegment(Segment(0, Zeros(padLen)), Padding);
      }
    }

    /** All flash segments, then what is left of the RAM segments. */
    method WriteSegments(flash: seq<Segment>, ram: seq<Segment>) returns (ok: bool)
      requires Valid() && blocks == [] && Within(flash) && Within(ram)
      modifies this
      ensures Valid() && header == old(header)
      ensures if ok then Layout(blocks, flash, ram) && Planned(blocks, flash, |flash|, ram, [])
              else Stuck(blocks, flash, ram)
    {
      hide Layout, Placing, Valid, Stuck, RawPad, Planned;
      var parts := Copies(ram);
      PlaceStart(flash, ram);
      assert forall j :: 0 <= j < |parts| ==> parts[j] in parts;
      ghost var k;
      ok, parts, k := PlaceAll(flash, parts, ram);
      Position();
      if ok {
        SaveRest(parts, flash, ram);
      } else {
        StuckWhilePlacing(blocks, flash, k, ram, Views(parts));
      }
    }

    method CompleteImage(h: Header, ghost count0: byte, ghost flash: seq<Segment>, ghost ram: seq<Segment>,
                         pad: SecurePad, sha256: seq<byte> -> Digest) returns (r: SaveResult)
      requires Valid() && h.Valid() && header == HeaderBytes(h, count0)
      requires Layout(blocks, flash, ram) && Planned(blocks, flash, |flash|, ram, [])
      requires pad != NoPad ==> h.appendDigest
      modifies this
      ensures match r
              case Saved(image) => Complete(h, blocks, flash, ram, pad, sha256, image)
              case _ => r == TooManySegments && |blocks| > 255 && PlannedWith(blocks, flash, ram, pad)
    {
      hide Layout, HeaderBytes, ImageBytes, AlignTail, Planned, PlannedWith;
      SecurePadding(pad, flash, ram);
      if totalSegments > 255 {
        return TooManySegments;
      }
      Finish(h, count0);
      assert pad != NoPad ==> (|f| + SpaceAfterChecksum(pad)) % IROM_ALIGN == 0;
      hide SpaceAfterChecksum;
      return Saved(if h.appendDigest then f + sha256(f) else f);
    }

    /** The checksum behind its alignment, and the final segment count in the header. */
    method Finish(h: Header, ghost count0: byte)
      requires Valid() && h.Valid() && header == HeaderBytes(h, count0) && totalSegments < 256
      modifies this
      ensures |blocks| < 256 && f == ImageBytes(h, Segments(blocks)) && blocks == old(blocks)
      ensures |f| == old(|f|) + AlignTail(old(|f|)) + 1
    {
      ghost var segs := Segments(blocks);
      hide Body, SegmentsChecksum;
      f := f + Zeros(AlignTail(|f|)) + [checksum];
      f := f[1 := totalSegments];
      assert HeaderBytes(h, totalSegments) == header[1 := totalSegments];
    }
  }

  lemma OneTidy(ss: seq<Segment>, i: nat)
    requires i < |ss| && Within(ss[i..])
    ensures ss[i].Fits() && Within(ss[i + 1..])
    ensures AllWordSized(ss[i..]) ==> WordSized(ss[i]) && AllWordSized(ss[i + 1..])
  {
  }

  /** With all flash segments placed, the plan goes on with a whole RAM segment. */
  lemma PlaceWhole(blocks: seq<Block>, flash: seq<Segment>, ram0: seq<Segment>, views: seq<Segment>, i: nat)
    requires i < |views| && Placing(blocks, flash, |flash|, ram0, views[i..])
    ensures views[i].Fits()
    ensures Placing(blocks + [Block(Ram, views[i])], flash, |flash|, ram0, views[i + 1..])
  {
    PlacingFacts(blocks, flash, |flash|, ram0, views[i..]);
    OneTidy(views, i);
    assert views[i..][0] == views[i] && views[i..][1..] == views[i + 1..];
    hide Placing, Cells, AllWordSized, WordSized, Within;
    CellsStep(views, i);
    PlaceRam(blocks, flash, |flash|, ram0, views[i..], views[i], views[i + 1..]);
  }

  /** 1 while a block is still needed in front of the next flash segment. */
  function Gap(pos: nat, flash: seq<Segment>, i: nat): nat {
    if i < |flash| && PadNeeded(pos, flash[i].addr) > 0 then 1 else 0
  }

  lemma CellsStep(ss: seq<Segment>, i: nat)
    requires i < |ss|
    ensures SegmentCells(ss[i]) + Cells(ss[i + 1..]) == Cells(ss[i..])
  {
  }

  method CheckPages(flash: seq<Segment>) returns (ok: bool)
    ensures ok <==> DistinctPages(flash)
  {
    ok := true;
    if |flash| > 0 {
      var lastAddr := flash[0].addr;
      var i := 1;
      while i < |flash|
        invariant 1 <= i <= |flash| && lastAddr == flash[i - 1].addr
        invariant forall j :: 1 <= j < i ==> flash[j].addr / IROM_ALIGN != flash[j - 1].addr / IROM_ALIGN
      {
        if flash[i].addr / IROM_ALIGN == lastAddr / IROM_ALIGN {
          return false;
        }
        lastAddr := flash[i].addr;
        i := i + 1;
      }
    }
  }

  /** Copies that can be taken apart. */
  method Copies(ss: seq<Segment>) returns (r: seq<ImageSegment>)
    ensures Distinct(r) && Views(r) == ss && forall s <- r :: fresh(s)
  {
    r := [];
    var i := 0;
    while i < |ss|
      invariant 0 <= i <= |ss| && |r| == i && Distinct(r)
      invariant forall j :: 0 <= j < i ==> fresh(r[j]) && r[j].View() == ss[j]
    {
      var s := new ImageSegment(ss[i]);
      r := r + [s];
      i := i + 1;
    }
  }

  /** The plan ends in front of a flash segment that would be written where it is not mapped. */
  ghost predicate Stuck(blocks: seq<Block>, flash: seq<Segment>, ram: seq<Segment>) {
    exists k: nat, left ::
      Planned(blocks, flash, k, ram, left) && k < |flash| && RawPad(End(blocks), flash[k].addr) == SEG_HEADER_LEN
  }

  lemma StuckWhilePlacing(blocks: seq<Block>, flash: seq<Segment>, k: nat, ram0: seq<Segment>, ram: seq<Segment>)
    requires Placing(blocks, flash, k, ram0, ram) && k < |flash|
    requires RawPad(End(blocks), flash[k].addr) == SEG_HEADER_LEN
    ensures Stuck(blocks, flash, ram0)
  {
  }

  /** The block that is added for signing, when the others end at pos. */
  function SecureBlocks(pos: nat, pad: SecurePad): seq<Block> {
    if pad == NoPad then [] else [Block(Padding, Segment(0, Zeros(SecurePadLen(pos, pad))))]
  }

  /** The blocks of the whole plan, and the one for signing. */
  ghost predicate PlannedWith(blocks: seq<Block>, flash: seq<Segment>, ram: seq<Segment>, pad: SecurePad) {
    exists placed ::
      Planned(placed, flash, |flash|, ram, []) && blocks == placed + SecureBlocks(End(placed), pad)
  }

  lemma PlannedWithPad(placed: seq<Block>, flash: seq<Segment>, ram: seq<Segment>, pad: SecurePad)
    requires Planned(placed, flash, |flash|, ram, [])
    ensures PlannedWith(placed + SecureBlocks(End(placed), pad), flash, ram, pad)
  {
  }

  lemma SecurePadFits(blocks: seq<Block>, flash: seq<Segment>, ram: seq<Segment>, pad: SecurePad)
    requires Layout(blocks, flash, ram)
    ensures SecurePadLen(End(blocks), pad) < 65536
    ensures AllWordSized(flash) && AllWordSized(ram) ==> SecurePadLen(End(blocks), pad) % 4 == 0
  {
    assert AllWordSized(flash) && AllWordSized(ram) ==> AllWordSized(Segments(blocks));
    assert SecurePadLen(End(blocks), pad) < IROM_ALIGN;
    hide Layout, AllWordSized, SecurePadLen, End;
    if AllWordSized(flash) && AllWordSized(ram) {
      EndWordSized(blocks);
      SecurePadWordSized(End(blocks), pad);
    }
  }

  /** The block for signing belongs to the layout and makes the image end a page. */
  lemma SecureBlock(blocks: seq<Block>, flash: seq<Segment>, ram: seq<Segment>, pad: SecurePad)
    requires Layout(blocks, flash, ram) && Planned(blocks, flash, |flash|, ram, [])
    ensures pad == NoPad ==> PlannedWith(blocks, flash, ram, pad)
    ensures pad != NoPad ==>
      var padLen := SecurePadLen(End(blocks), pad);
      var end, t := End(blocks) + SEG_HEADER_LEN + padLen, blocks + [Block(Padding, Segment(0, Zeros(padLen)))];
      && Layout(t, flash, ram) && PlannedWith(t, flash, ram, pad)
      && (end + AlignTail(end) + 1 + SpaceAfterChecksum(pad)) % IROM_ALIGN == 0
  {
    hide Layout, AllWordSized, SecurePadLen, Planned, PlannedWith, End, SpaceAfterChecksum, AlignTail, Zeros;
    PlannedWithPad(blocks, flash, ram, pad);
    if pad == NoPad {
      assert blocks + SecureBlocks(End(blocks), pad) == blocks;
    } else {
      SecurePadEndsPage(End(blocks), pad);
      SecurePadFits(blocks, flash, ram, pad);
      LayoutPadding(blocks, flash, ram, SecurePadLen(End(blocks), pad));
    }
  }

  /** The segments determine the blocks of an image, and whether there is one at all. */
  lemma OneImage(flash: seq<Segment>, ram: seq<Segment>, pad: SecurePad, a: seq<Block>, b: seq<Block>)
    ensures PlannedWith(a, flash, ram, pad) && PlannedWith(b, flash, ram, pad) ==> a == b
    ensures PlannedWith(a, flash, ram, pad) ==> !Stuck(b, flash, ram)
  {
    hide Planned, End, RawPad, SecureBlocks;
    if PlannedWith(a, flash, ram, pad) {
      var placed :| Planned(placed, flash, |flash|, ram, []) && a == placed + SecureBlocks(End(placed), pad);
      if PlannedWith(b, flash, ram, pad) {
        var other :| Planned(other, flash, |flash|, ram, []) && b == other + SecureBlocks(End(other), pad);
        OnePlan(flash, ram, placed, |flash|, [], other, |flash|, []);
      }
      if Stuck(b, flash, ram) {
        var k: nat, left :| Planned(b, flash, k, ram, left) && k < |flash| && RawPad(End(b), flash[k].addr) == SEG_HEADER_LEN;
        OnePlan(flash, ram, placed, |flash|, [], b, k, left);
      }
    }
  }

  /** A finished file with the given blocks. */
  ghost predicate Complete(h: Header, blocks: seq<Block>, flash: seq<Segment>, ram: seq<Segment>, pad: SecurePad,
                     sha256: seq<byte> -> Digest, image: seq<byte>)
    requires h.Valid()
  {
    && |blocks| < 256 && Layout(blocks, flash, ram) && PlannedWith(blocks, flash, ram, pad)
    && image == WithDigest(h, ImageBytes(h, Segments(blocks)), sha256)
    && (pad != NoPad ==>
          h.appendDigest && (|ImageBytes(h, Segments(blocks))| + SpaceAfterChecksum(pad)) % IROM_ALIGN == 0)
  }

  // ---- What an image carries ----

  /** Block i is a segment that is mapped to flash: whole, where its address wants it. */
  predicate FlashBlock(blocks: seq<Block>, i: nat, s: Segment) {
    && i < |blocks| && blocks[i].origin == Flash
    && blocks[i].seg.addr == s.addr && s.data <= blocks[i].seg.data
    && (24 + |Body(Segments(blocks[..i]))| + 8) % 65536 == s.addr % 65536
  }

  /** Byte j of block i is loaded to an address. */
  predicate LoadsByte(blocks: seq<Block>, i: nat, j: nat, addr: nat, b: byte) {
    && i < |blocks| && blocks[i].origin == Ram && j < |blocks[i].seg.data|
    && blocks[i].seg.addr + j == addr && blocks[i].seg.data[j] == b
  }

  ghost predicate IsLoaded(blocks: seq<Block>, addr: nat, b: byte) {
    exists i, j :: LoadsByte(blocks, i, j, addr, b)
  }

  ghost predicate Carries(blocks: seq<Block>, s: Segment) {
    if 0x400d0000 <= s.addr < 0x40400000 || 0x3F400000 <= s.addr < 0x3F800000 then
      exists i :: FlashBlock(blocks, i, s)
    else
      forall k :: 0 <= k < |s.data| ==> IsLoaded(blocks, s.addr + k, s.data[k])
  }

  lemma {:induction false} Selects(blocks: seq<Block>, origin: Origin, n: nat) returns (i: nat)
    requires n < |Select(blocks, origin)|
    ensures i < |blocks| && blocks[i].origin == origin && blocks[i].seg == Select(blocks, origin)[n]
  {
    var front := blocks[..|blocks| - 1];
    if n < |Select(front, origin)| {
      i := Selects(front, origin, n);
    } else {
      i := |front|;
    }
  }

  lemma CarriesFlash(blocks: seq<Block>, flash: seq<Segment>, ram: seq<Segment>, n: nat) returns (i: nat)
    requires Layout(blocks, flash, ram) && n < |flash|
    ensures FlashBlock(blocks, i, flash[n])
  {
    hide Tidy, Cells;
    assert WrittenAs(flash[n], Select(blocks, Flash)[n]);
    i := Selects(blocks, Flash, n);
    assert AlignedAt(End(blocks[..i]), blocks[i].seg.addr);
  }

  lemma {:induction false} CellAt(segs: seq<Segment>, n: nat, k: nat)
    requires n < |segs| && k < |segs[n].data|
    ensures (segs[n].addr + k, segs[n].data[k]) in Cells(segs)
  {
    if n == 0 {
      assert SegmentCells(segs[0])[k] == (segs[0].addr + k, segs[0].data[k]);
    } else {
      CellAt(segs[1..], n - 1, k);
    }
  }

  lemma {:induction false} CellFrom(segs: seq<Segment>, c: (nat, byte)) returns (n: nat, k: nat)
    requires c in Cells(segs)
    ensures n < |segs| && k < |segs[n].data| && c == (segs[n].addr + k, segs[n].data[k])
  {
    if c in SegmentCells(segs[0]) {
      n := 0;
      k :| 0 <= k < |SegmentCells(segs[0])| && SegmentCells(segs[0])[k] == c;
    } else {
      n, k := CellFrom(segs[1..], c);
      n := n + 1;
    }
  }

  lemma CarriesByte(blocks: seq<Block>, flash: seq<Segment>, ram: seq<Segment>, n: nat, k: nat) returns (i: nat, j: nat)
    requires Layout(blocks, flash, ram) && n < |ram| && k < |ram[n].data|
    ensures LoadsByte(blocks, i, j, ram[n].addr + k, ram[n].data[k])
  {
    hide Tidy, FlashAligned, AllWrittenAs, OnlyZeros;
    CellAt(ram, n, k);
    assert Cells(Select(blocks, Ram)) == Cells(ram);
    hide Cells;
    var m;
    m, j := CellFrom(Select(blocks, Ram), (ram[n].addr + k, ram[n].data[k]));
    i := Selects(blocks, Ram, m);
  }

  /** A complete layout carries every segment. */
  lemma CarriesAll(blocks: seq<Block>, segments: seq<Segment>)
    requires Layout(blocks, Mapped(SortByAddr(segments), true), Mapped(SortByAddr(segments), false))
    ensures forall s <- segments :: Carries(blocks, s)
  {
    var flash, ram := Mapped(SortByAddr(segments), true), Mapped(SortByAddr(segments), false);
    hide Layout, Mapped, SortByAddr, FlashBlock, LoadsByte;
    Selected(segments);
    forall s | s in segments ensures Carries(blocks, s) {
      assert s in multiset(flash) + multiset(ram);
      if s in multiset(flash) {
        var n :| 0 <= n < |flash| && flash[n] == s;
        var i := CarriesFlash(blocks, flash, ram, n);
      } else {
        var n :| 0 <= n < |ram| && ram[n] == s;
        forall k | 0 <= k < |s.data| ensures IsLoaded(blocks, s.addr + k, s.data[k]) {
          var i, j := CarriesByte(blocks, flash, ram, n, k);
        }
      }
    }
  }

  ghost predicate IsImage(h: Header, segments: seq<Segment>, flash: seq<Segment>, ram: seq<Segment>, pad: SecurePad,
                          sha256: seq<byte> -> Digest, image: seq<byte>)
    requires h.Valid()
  {
    exists blocks :: Complete(h, blocks, flash, ram, pad, sha256, image) && forall s <- segments :: Carries(blocks, s)
  }

  lemma CompleteIsImage(h: Header, blocks: seq<Block>, segments: seq<Segment>, flash: seq<Segment>, ram: seq<Segment>,
                        pad: SecurePad, sha256: seq<byte> -> Digest, image: seq<byte>)
    requires flash == Mapped(SortByAddr(segments), true) && ram == Mapped(SortByAddr(segments), false)
    requires h.Valid() && Complete(h, blocks, flash, ram, pad, sha256, image)
    ensures IsImage(h, segments, flash, ram, pad, sha256, image)
    ensures pad == V1 ==> (|image| + 80) % 65536 == 0
    ensures pad == V2 ==> |image| % 65536 == 0
  {
    hide Carries, Mapped, SortByAddr, ImageBytes, Layout, PlannedWith;
    CarriesAll(blocks, segments);
  }

  lemma SamePage(flash: seq<Segment>)
    requires !DistinctPages(flash)
    ensures exists i :: 1 <= i < |flash| && flash[i].addr / 65536 == flash[i - 1].addr / 65536
  {
  }

  lemma AllPages(flash: seq<Segment>)
    requires DistinctPages(flash) && forall i, j :: 0 <= i < j < |flash| ==> flash[i].addr <= flash[j].addr
    ensures forall i, j :: 0 <= i < j < |flash| ==> flash[i].addr / 65536 < flash[j].addr / 65536
  {
    forall i, j | 0 <= i < j < |flash| ensures flash[i].addr / 65536 < flash[j].addr / 65536 {
      PagesAllDistinct(flash, i, j);
    }
  }

  ghost predicate CannotBePlaced(flash: seq<Segment>, ram: seq<Segment>) {
    exists blocks :: Stuck(blocks, flash, ram)
  }

  lemma Unplaceable(blocks: seq<Block>, flash: seq<Segment>, ram: seq<Segment>)
    requires Stuck(blocks, flash, ram)
    ensures CannotBePlaced(flash, ram)
  {
    hide Stuck;
  }

  ghost predicate TooManyBlocks(flash: seq<Segment>, ram: seq<Segment>, pad: SecurePad) {
    exists blocks :: PlannedWith(blocks, flash, ram, pad) && |blocks| > 255
  }

  lemma TooMany(blocks: seq<Block>, flash: seq<Segment>, ram: seq<Segment>, pad: SecurePad)
    requires PlannedWith(blocks, flash, ram, pad) && |blocks| > 255
    ensures TooManyBlocks(flash, ram, pad)
  {
    hide PlannedWith;
  }

  /** The outcomes exclude each other, and there is only one image. */
  lemma OneOutcome(h: Header, segments: seq<Segment>, flash: seq<Segment>, ram: seq<Segment>, pad: SecurePad,
                   sha256: seq<byte> -> Digest, image: seq<byte>, other: seq<byte>)
    requires h.Valid()
    ensures IsImage(h, segments, flash, ram, pad, sha256, image) ==> !CannotBePlaced(flash, ram) && !TooManyBlocks(flash, ram, pad)
    ensures IsImage(h, segments, flash, ram, pad, sha256, image) && IsImage(h, segments, flash, ram, pad, sha256, other) ==> other == image
  {
    hide Stuck, PlannedWith, Layout, Carries;
    if IsImage(h, segments, flash, ram, pad, sha256, image) {
      var a :| Complete(h, a, flash, ram, pad, sha256, image);
      if CannotBePlaced(flash, ram) {
        var b :| Stuck(b, flash, ram);
        OneImage(flash, ram, pad, a, b);
      }
      if TooManyBlocks(flash, ram, pad) {
        var b :| PlannedWith(b, flash, ram, pad) && |b| > 255;
        OneImage(flash, ram, pad, a, b);
      }
      if IsImage(h, segments, flash, ram, pad, sha256, other) {
        var b :| Complete(h, b, flash, ram, pad, sha256, other);
        OneImage(flash, ram, pad, a, b);
      }
    }
  }

  /** Two segments in different pages, already in order, that cannot be placed: the first one
      ends 16 bytes before the boundary where the second one begins. */
  lemma GapOfEight() returns (flash: seq<Segment>)
    ensures DistinctPages(flash) && Sorted(flash, AddrOf) && Within(flash) && AllWordSized(flash)
    ensures forall s <- flash :: IsFlashAddr(s.addr)
    ensures CannotBePlaced(flash, [])
  {
    var first, second := Segment(0x400d0020, Zeros(65488)), Segment(0x400e0000, Zeros(4));
    flash := [first, second];
    var b := Block(Flash, first);
    hide Zeros, Stuck, Planned, RawPad, End;
    FirstPlaced(flash, b);
    GapIsStuck([b], flash, 1, []);
    Unplaceable([b], flash, []);
  }

  lemma FirstPlaced(flash: seq<Segment>, b: Block)
    requires |flash| == 2 && b == Block(Flash, flash[0])
    requires flash[0] == Segment(0x400d0020, Zeros(65488)) && flash[1].addr == 0x400e0000
    ensures Planned([b], flash, 1, [], []) && RawPad(End([b]), flash[1].addr) == SEG_HEADER_LEN
  {
    assert Segments([]) == [];
    assert End([]) == HEADER_LEN;
    EndAppend([], b);
    assert [] + [b] == [b];
    assert flash[0].data + Zeros(0) == flash[0].data;
    hide End, Zeros, Segments;
    assert FlashWritten(flash[0], HEADER_LEN) == flash[0];
    assert RawPad(HEADER_LEN, flash[0].addr) == IROM_ALIGN && AlignedAt(HEADER_LEN, flash[0].addr);
    hide FlashWritten, AlignedAt;
    assert NextStep(Plan([], 0, []), flash) == Plan([b], 1, []);
    assert PlanAfter(flash, [], 0) == Plan([], 0, []);
    hide NextStep;
    assert PlanAfter(flash, [], 1) == NextStep(PlanAfter(flash, [], 0), flash);
  }

  lemma GapIsStuck(blocks: seq<Block>, flash: seq<Segment>, k: nat, ram: seq<Segment>)
    requires Planned(blocks, flash, k, ram, []) && k < |flash|
    requires RawPad(End(blocks), flash[k].addr) == SEG_HEADER_LEN
    ensures Stuck(blocks, flash, ram)
  {
    hide Planned, RawPad, End;
  }

  /** A complete image, or the first error. The segments are placed in the order of their
      addresses. */
  method Save(h: Header, segments: seq<Segment>, pad: SecurePad, sha256: seq<byte> -> Digest) returns (r: SaveResult)
    requires h.Valid() && Within(segments)
    ensures var flash, ram := Mapped(SortByAddr(segments), true), Mapped(SortByAddr(segments), false);
            && multiset(flash) + multiset(ram) == multiset(segments)
            && (forall s <- flash :: 0x400d0000 <= s.addr < 0x40400000 || 0x3F400000 <= s.addr < 0x3F800000)
            && (forall s <- ram :: !(0x400d0000 <= s.addr < 0x40400000 || 0x3F400000 <= s.addr < 0x3F800000))
            && (forall i, j :: 0 <= i < j < |flash| ==> flash[i].addr <= flash[j].addr)
            && (forall i, j :: 0 <= i < j < |ram| ==> ram[i].addr <= ram[j].addr)
            && match r
               case Saved(image) =>
                 && |segments| < 256 && (forall i, j :: 0 <= i < j < |flash| ==> flash[i].addr / 65536 < flash[j].addr / 65536)
                 && IsImage(h, segments, flash, ram, pad, sha256, image)
                 && (pad == V1 ==> (|image| + 80) % 65536 == 0) && (pad == V2 ==> |image| % 65536 == 0)
               case SameMapping => exists i :: 1 <= i < |flash| && flash[i].addr / 65536 == flash[i - 1].addr / 65536
               case Misaligned => CannotBePlaced(flash, ram)
               case TooManySegments => |segments| > 255 || TooManyBlocks(flash, ram, pad)
               case NoDigest => pad != NoPad && !h.appendDigest
  {
    hide Complete, Stuck, Layout, DistinctPages, HeaderBytes, Planned, PlannedWith, IsImage, CannotBePlaced, TooManyBlocks;
    hide Mapped, SortByAddr;
    Selected(segments);
    if |segments| > 255 {
      return TooManySegments;
    }
    var sorted := SortByAddr(segments);
    var flash, ram := Mapped(sorted, true), Mapped(sorted, false);
    var pagesOk := CheckPages(flash);
    if !pagesOk {
      SamePage(flash);
      return SameMapping;
    }
    AllPages(flash);
    SortWithin(segments);
    MappedWithin(sorted, true);
    MappedWithin(sorted, false);
    var w := new ImageWriter(HeaderBytes(h, |segments|));
    var ok := w.WriteSegments(flash, ram);
    if !ok {
      Unplaceable(w.blocks, flash, ram);
      return Misaligned;
    }
    if pad != NoPad && !h.appendDigest {
      return NoDigest;
    }
    r := w.CompleteImage(h, |segments|, flash, ram, pad, sha256);
    if r.Saved? {
      CompleteIsImage(h, w.blocks, segments, flash, ram, pad, sha256, r.image);
    } else {
      TooMany(w.blocks, flash, ram, pad);
    }
  }
}
