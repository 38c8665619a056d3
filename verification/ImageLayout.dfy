/** Where the segments of an image are placed. Flash-mapped data must lie at a file offset
    congruent to its load address modulo 64K; the gaps are filled with pieces of the RAM
    segments or with zeros. */
module ImageLayout {
  import opened Arithmetic
  import opened Sequences
  import opened LittleEndian
  import opened ImageFormat

  // ---- The gap in front of a flash segment ----

  function RawPad(pos: nat, addr: nat): int {
    IROM_ALIGN - pos % IROM_ALIGN + (addr % IROM_ALIGN - SEG_HEADER_LEN)
  }

  /** Data bytes of the block to be written in front of the segment; 0 for none. */
  function PadNeeded(pos: nat, addr: nat): nat {
    var padLen := RawPad(pos, addr);
    if padLen == 0 || padLen == IROM_ALIGN then 0
    else if padLen - SEG_HEADER_LEN < 0 then padLen - SEG_HEADER_LEN + IROM_ALIGN
    else padLen - SEG_HEADER_LEN
  }

  /** With its header written at pos, the data of the segment is mapped to its address. */
  predicate AlignedAt(pos: nat, addr: nat) {
    (pos + SEG_HEADER_LEN) % IROM_ALIGN == addr % IROM_ALIGN
  }

  /** A block of the computed size closes the gap, and no block is asked for when there is
      no gap; but none is asked for either when the gap is exactly one header long. */
  lemma PadCloses(pos: nat, addr: nat)
    ensures AlignedAt(pos, addr) || RawPad(pos, addr) == SEG_HEADER_LEN <==> PadNeeded(pos, addr) == 0
    ensures PadNeeded(pos, addr) == 0 ==> (AlignedAt(pos, addr) <==> RawPad(pos, addr) != SEG_HEADER_LEN)
    ensures PadNeeded(pos, addr) > 0 ==> AlignedAt(pos + SEG_HEADER_LEN + PadNeeded(pos, addr), addr)
  {
    var p, a := pos % IROM_ALIGN, addr % IROM_ALIGN;
    assert pos == pos / IROM_ALIGN * IROM_ALIGN + p;
  }

  /** The same in numbers. A header of 8 bytes stands in front of the data, and another one in
      front of the block. The gap that fails is the one for that header and nothing else, where
      it crosses a page boundary. The block is not always the least one that closes the gap: it
      is a page longer than that iff the address lies at least 16 bytes further in its page. */
  lemma GapInBytes(pos: nat, addr: nat)
    ensures AlignedAt(pos, addr) <==> (pos + 8) % 65536 == addr % 65536
    ensures RawPad(pos, addr) == SEG_HEADER_LEN <==> (pos + 16) % 65536 == addr % 65536 && addr % 65536 < 16
    ensures PadNeeded(pos, addr) > 0 ==> (pos + 8 + PadNeeded(pos, addr) + 8) % 65536 == addr % 65536
    ensures PadNeeded(pos, addr) < 2 * 65536
    ensures PadNeeded(pos, addr) >= 65536 <==> pos % 65536 + 16 <= addr % 65536
  {
    PadCloses(pos, addr);
    var p, a := pos % IROM_ALIGN, addr % IROM_ALIGN;
    assert pos == pos / IROM_ALIGN * IROM_ALIGN + p;
  }

  /** The zeros appended to a flash segment whose last memory page would hold only few bytes. */
  function FlashTail(pos: nat, len: nat): nat {
    var remainder := (pos + len + SEG_HEADER_LEN) % IROM_ALIGN;
    if remainder < 0x24 then 0x24 - remainder else 0
  }

  lemma FlashTailSuffices(pos: nat, len: nat)
    ensures (pos + len + FlashTail(pos, len) + SEG_HEADER_LEN) % IROM_ALIGN >= 0x24
    ensures if (pos + 8 + len) % 65536 >= 0x24 then FlashTail(pos, len) == 0
            else (pos + 8 + len + FlashTail(pos, len)) % 65536 == 0x24 && FlashTail(pos, len) <= 0x24
  {
  }

  // ---- The blocks of an image ----

  datatype Origin = Padding | Ram | Flash

  datatype Block = Block(origin: Origin, seg: Segment)

  function Segments(blocks: seq<Block>): (s: seq<Segment>)
    ensures |s| == |blocks|
    ensures forall i :: 0 <= i < |s| ==> s[i] == blocks[i].seg
  {
    seq(|blocks|, i requires 0 <= i < |blocks| => blocks[i].seg)
  }

  /** The file offset behind the blocks. */
  function End(blocks: seq<Block>): nat {
    HEADER_LEN + |Body(Segments(blocks))|
  }

  function Select(blocks: seq<Block>, origin: Origin): seq<Segment> {
    if blocks == [] then []
    else
      var front, last := Select(blocks[..|blocks| - 1], origin), blocks[|blocks| - 1];
      if last.origin == origin then front + [last.seg] else front
  }

  lemma SelectAppend(blocks: seq<Block>, b: Block, origin: Origin)
    ensures Select(blocks + [b], origin) ==
            if b.origin == origin then Select(blocks, origin) + [b.seg] else Select(blocks, origin)
  {
  }

  lemma EndAppend(blocks: seq<Block>, b: Block)
    ensures Segments(blocks + [b]) == Segments(blocks) + [b.seg]
    ensures End(blocks + [b]) == End(blocks) + SEG_HEADER_LEN + |b.seg.data|
  {
  }

  /** Every flash block lies where it is mapped, and its last page holds enough bytes. */
  predicate FlashAligned(blocks: seq<Block>) {
    forall i :: 0 <= i < |blocks| && blocks[i].origin == Flash ==>
      && AlignedAt(End(blocks[..i]), blocks[i].seg.addr)
      && End(blocks[..i + 1]) % IROM_ALIGN >= 0x24
  }

  lemma FlashAlignedAppend(blocks: seq<Block>, b: Block)
    requires FlashAligned(blocks)
    requires b.origin == Flash ==>
      AlignedAt(End(blocks), b.seg.addr) && (End(blocks) + SEG_HEADER_LEN + |b.seg.data|) % IROM_ALIGN >= 0x24
    ensures FlashAligned(blocks + [b])
  {
    hide End;
    EndAppend(blocks, b);
    var t := blocks + [b];
    forall i | 0 <= i < |t| && t[i].origin == Flash
      ensures AlignedAt(End(t[..i]), t[i].seg.addr) && End(t[..i + 1]) % IROM_ALIGN >= 0x24
    {
      if i < |blocks| {
        assert t[..i] == blocks[..i] && t[..i + 1] == blocks[..i + 1];
      } else {
        assert t[..i] == blocks && t[..i + 1] == t;
      }
    }
  }

  /** A flash segment is written whole, with at most a few zeros behind it. */
  predicate WrittenAs(s: Segment, w: Segment) {
    && w.addr == s.addr && s.data <= w.data && |w.data| <= |s.data| + 0x24
    && forall i :: |s.data| <= i < |w.data| ==> w.data[i] == 0
  }

  predicate AllWrittenAs(ss: seq<Segment>, ws: seq<Segment>) {
    |ws| == |ss| && forall i :: 0 <= i < |ss| ==> WrittenAs(ss[i], ws[i])
  }

  predicate OnlyZeros(ss: seq<Segment>) {
    forall i :: 0 <= i < |ss| ==> ss[i].addr == 0 && forall k :: 0 <= k < |ss[i].data| ==> ss[i].data[k] == 0
  }

  /** Addresses and lengths of the segments fit 32 bits, also with zeros behind the data. */
  predicate Within(ss: seq<Segment>) {
    forall i :: 0 <= i < |ss| ==> ss[i].addr + |ss[i].data| + 0x24 < TWO32
  }

  predicate AllFit(ss: seq<Segment>) {
    forall i :: 0 <= i < |ss| ==> ss[i].Fits()
  }

  predicate WordSized(s: Segment) {
    s.addr % 4 == 0 && |s.data| % 4 == 0
  }

  predicate AllWordSized(ss: seq<Segment>) {
    forall i :: 0 <= i < |ss| ==> WordSized(ss[i])
  }

  lemma Mod4Sum(a: nat, b: nat)
    requires a % 4 == 0 && b % 4 == 0
    ensures (a + b) % 4 == 0
  {
  }

  lemma {:induction false} BodyWordSized(ss: seq<Segment>)
    requires AllWordSized(ss)
    ensures |Body(ss)| % 4 == 0
  {
    if ss != [] {
      var front, last := ss[..|ss| - 1], ss[|ss| - 1];
      assert WordSized(last);
      BodyWordSized(front);
      assert |Body(ss)| == |Body(front)| + (SEG_HEADER_LEN + |last.data|);
      hide Body, Encode, AllWordSized;
      Mod4Sum(SEG_HEADER_LEN, |last.data|);
      Mod4Sum(|Body(front)|, SEG_HEADER_LEN + |last.data|);
    }
  }

  /** Every block can be written, and if all segments are made of whole words, so are the
      blocks. */
  predicate Tidy(blocks: seq<Block>, flash: seq<Segment>, ram0: seq<Segment>, ram: seq<Segment>) {
    && AllFit(Segments(blocks)) && Within(flash) && Within(ram)
    && (AllWordSized(flash) && AllWordSized(ram0) ==> AllWordSized(Segments(blocks)) && AllWordSized(ram))
  }

  lemma TidyAppend(blocks: seq<Block>, b: Block, flash: seq<Segment>, ram0: seq<Segment>, ram: seq<Segment>, rest: seq<Segment>)
    requires Tidy(blocks, flash, ram0, ram) && b.seg.Fits() && Within(rest)
    requires AllWordSized(flash) && AllWordSized(ram0) ==> WordSized(b.seg) && AllWordSized(rest)
    ensures Tidy(blocks + [b], flash, ram0, rest)
  {
  }

  lemma EndWordSized(blocks: seq<Block>)
    requires AllWordSized(Segments(blocks))
    ensures End(blocks) % 4 == 0
  {
    BodyWordSized(Segments(blocks));
    hide Body, AllWordSized, Segments;
    Mod4Sum(HEADER_LEN, |Body(Segments(blocks))|);
  }

  /** The size of a block in front of a segment of whole words. */
  lemma PadWordSized(blocks: seq<Block>, s: Segment)
    requires AllWordSized(Segments(blocks)) && WordSized(s)
    ensures PadNeeded(End(blocks), s.addr) % 4 == 0
    ensures FlashTail(End(blocks), |s.data|) % 4 == 0
  {
    EndWordSized(blocks);
    hide PadNeeded, FlashTail, AllWordSized, End;
    PadOfWords(End(blocks), s.addr);
    TailOfWords(End(blocks), |s.data|);
  }

  lemma PagesAreWords(x: nat)
    requires x % 4 == 0
    ensures x % IROM_ALIGN % 4 == 0
  {
  }

  lemma PadOfWords(pos: nat, addr: nat)
    requires pos % 4 == 0 && addr % 4 == 0
    ensures PadNeeded(pos, addr) % 4 == 0
  {
    PagesAreWords(pos);
    PagesAreWords(addr);
    var p, a := pos % IROM_ALIGN, addr % IROM_ALIGN;
    assert RawPad(pos, addr) == IROM_ALIGN - p + (a - SEG_HEADER_LEN);
    hide RawPad;
    assert RawPad(pos, addr) % 4 == 0;
  }

  lemma TailOfWords(pos: nat, len: nat)
    requires pos % 4 == 0 && len % 4 == 0
    ensures FlashTail(pos, len) % 4 == 0
  {
    PagesAreWords(pos + len + SEG_HEADER_LEN);
  }

  /** A flash segment as it is written at pos. */
  function FlashWritten(s: Segment, pos: nat): Segment {
    Segment(s.addr, s.data + Zeros(FlashTail(pos, |s.data|)))
  }

  // ---- The plan of an image ----

  /** How far the placement has come: the blocks so far, how many flash segments are among
      them, and what is left of the RAM segments. */
  datatype Plan = Plan(blocks: seq<Block>, placed: nat, ram: seq<Segment>)

  function FirstPart(s: Segment, n: nat): Segment
    requires n <= |s.data|
  {
    Segment(s.addr, s.data[..n])
  }

  /** What is left when the first n bytes are taken away. */
  function Remaining(ram: seq<Segment>, n: nat): seq<Segment>
    requires ram != [] && n <= |ram[0].data|
  {
    var s := ram[0];
    if n == |s.data| then ram[1..] else [Segment(s.addr + n, s.data[n..])] + ram[1..]
  }

  function Taken(padLen: nat, s: Segment): nat {
    if padLen < |s.data| then padLen else |s.data|
  }

  /** The next block: what the gap in front of the next flash segment asks for, that segment,
      or one of the RAM segments that are left. A plan that is complete or stuck stays. */
  function NextStep(p: Plan, flash: seq<Segment>): Plan {
    if p.placed < |flash| then
      var s, pos := flash[p.placed], End(p.blocks);
      var padLen := PadNeeded(pos, s.addr);
      if padLen > 0 then
        if p.ram != [] && padLen > SEG_HEADER_LEN then
          var n := Taken(padLen, p.ram[0]);
          Plan(p.blocks + [Block(Ram, FirstPart(p.ram[0], n))], p.placed, Remaining(p.ram, n))
        else
          p.(blocks := p.blocks + [Block(Padding, Segment(0, Zeros(padLen)))])
      else if AlignedAt(pos, s.addr) then
        p.(blocks := p.blocks + [Block(Flash, FlashWritten(s, pos))], placed := p.placed + 1)
      else p
    else if p.ram != [] then
      Plan(p.blocks + [Block(Ram, p.ram[0])], p.placed, p.ram[1..])
    else p
  }

  function PlanAfter(flash: seq<Segment>, ram: seq<Segment>, n: nat): Plan {
    if n == 0 then Plan([], 0, ram) else NextStep(PlanAfter(flash, ram, n - 1), flash)
  }

  /** The blocks are those of the plan, which leaves k and ram. */
  predicate Planned(blocks: seq<Block>, flash: seq<Segment>, k: nat, ram0: seq<Segment>, ram: seq<Segment>) {
    PlanAfter(flash, ram0, |blocks|) == Plan(blocks, k, ram)
  }

  lemma PlannedStep(blocks: seq<Block>, flash: seq<Segment>, k: nat, ram0: seq<Segment>, ram: seq<Segment>,
                    b: Block, k': nat, rest: seq<Segment>)
    requires Planned(blocks, flash, k, ram0, ram)
    requires NextStep(Plan(blocks, k, ram), flash) == Plan(blocks + [b], k', rest)
    ensures Planned(blocks + [b], flash, k', ram0, rest)
  {
    hide NextStep;
    assert PlanAfter(flash, ram0, |blocks| + 1) == NextStep(PlanAfter(flash, ram0, |blocks|), flash);
  }

  // ---- What the plan avoids ----

  /** Zeros that are longer than a header only follow the last RAM block. */
  predicate Thrifty(blocks: seq<Block>) {
    forall i, j :: 0 <= i < j < |blocks| && blocks[i].origin == Padding && |blocks[i].seg.data| > 8 ==> blocks[j].origin != Ram
  }

  predicate Wasteful(blocks: seq<Block>) {
    exists i :: 0 <= i < |blocks| && blocks[i].origin == Padding && |blocks[i].seg.data| > 8
  }

  lemma {:induction false} PlanIsThrifty(flash: seq<Segment>, ram: seq<Segment>, n: nat)
    ensures var p := PlanAfter(flash, ram, n); Thrifty(p.blocks) && (Wasteful(p.blocks) ==> p.ram == [])
  {
    if n > 0 {
      PlanIsThrifty(flash, ram, n - 1);
      hide PadNeeded, End, FirstPart, Taken, Remaining, FlashWritten, AlignedAt, Zeros;
      StepIsThrifty(PlanAfter(flash, ram, n - 1), flash);
    }
  }

  lemma StepIsThrifty(p: Plan, flash: seq<Segment>)
    requires Thrifty(p.blocks) && (Wasteful(p.blocks) ==> p.ram == [])
    ensures var p' := NextStep(p, flash); Thrifty(p'.blocks) && (Wasteful(p'.blocks) ==> p'.ram == [])
  {
    hide PadNeeded, End, FirstPart, Taken, Remaining, FlashWritten, AlignedAt;
  }

  /** A RAM segment is only taken apart where its first part closes the gap. */
  lemma RamPiece(p: Plan, flash: seq<Segment>)
    requires p.placed < |flash| && p.ram != [] && PadNeeded(End(p.blocks), flash[p.placed].addr) > 8
    ensures var p', s, pos := NextStep(p, flash), p.ram[0], End(p.blocks);
            && |p'.blocks| == |p.blocks| + 1 && p'.blocks[..|p.blocks|] == p.blocks && p'.placed == p.placed
            && var b := p'.blocks[|p.blocks|];
            && b.origin == Ram && b.seg.addr == s.addr && b.seg.data <= s.data
            && if b.seg.data == s.data then p'.ram == p.ram[1..]
               else (pos + 8 + |b.seg.data| + 8) % 65536 == flash[p.placed].addr % 65536
                    && p'.ram == [Segment(s.addr + |b.seg.data|, s.data[|b.seg.data|..])] + p.ram[1..]
  {
    GapInBytes(End(p.blocks), flash[p.placed].addr);
  }

  lemma {:induction false} PlanStays(flash: seq<Segment>, ram: seq<Segment>, n: nat, m: nat)
    requires n <= m && NextStep(PlanAfter(flash, ram, n), flash) == PlanAfter(flash, ram, n)
    ensures PlanAfter(flash, ram, m) == PlanAfter(flash, ram, n)
  {
    hide NextStep;
    if n < m {
      PlanStays(flash, ram, n, m - 1);
    }
  }

  /** No further step: everything is placed, or the assertion in front of a flash segment fails. */
  predicate Final(blocks: seq<Block>, flash: seq<Segment>, k: nat, ram: seq<Segment>) {
    if k < |flash| then RawPad(End(blocks), flash[k].addr) == SEG_HEADER_LEN else ram == []
  }

  /** The segments leave no choice: there is one plan, complete or stuck. */
  lemma OnePlan(flash: seq<Segment>, ram0: seq<Segment>, a: seq<Block>, k: nat, ram: seq<Segment>,
                b: seq<Block>, k': nat, ram': seq<Segment>)
    ensures Planned(a, flash, k, ram0, ram) && Final(a, flash, k, ram)
         && Planned(b, flash, k', ram0, ram') && Final(b, flash, k', ram')
        ==> a == b && k == k' && ram == ram'
  {
    hide NextStep, Final;
    if Planned(a, flash, k, ram0, ram) && Final(a, flash, k, ram) {
      if Planned(b, flash, k', ram0, ram') && Final(b, flash, k', ram') {
        FinalStays(a, flash, k, ram);
        FinalStays(b, flash, k', ram');
        if |a| <= |b| {
          PlanStays(flash, ram0, |a|, |b|);
        } else {
          PlanStays(flash, ram0, |b|, |a|);
        }
      }
    }
  }

  lemma FinalStays(blocks: seq<Block>, flash: seq<Segment>, k: nat, ram: seq<Segment>)
    requires Final(blocks, flash, k, ram)
    ensures NextStep(Plan(blocks, k, ram), flash) == Plan(blocks, k, ram)
  {
    hide End;
    if k < |flash| {
      PadCloses(End(blocks), flash[k].addr);
    }
  }

  /** The blocks so far, when the first k flash segments have been placed and ram is what is
      left of the RAM segments. */
  predicate Placing(blocks: seq<Block>, flash: seq<Segment>, k: nat, ram0: seq<Segment>, ram: seq<Segment>) {
    && FlashAligned(blocks)
    && k <= |flash| && AllWrittenAs(flash[..k], Select(blocks, Flash))
    && Cells(Select(blocks, Ram)) + Cells(ram) == Cells(ram0)
    && OnlyZeros(Select(blocks, Padding))
    && Tidy(blocks, flash, ram0, ram)
    && Planned(blocks, flash, k, ram0, ram)
  }

  /** A complete layout: every flash segment is placed and aligned, and the RAM blocks load
      exactly the bytes of the RAM segments, at their addresses and in their order. */
  predicate Layout(blocks: seq<Block>, flash: seq<Segment>, ram: seq<Segment>) {
    && FlashAligned(blocks)
    && AllWrittenAs(flash, Select(blocks, Flash))
    && Cells(Select(blocks, Ram)) == Cells(ram)
    && OnlyZeros(Select(blocks, Padding))
    && Tidy(blocks, flash, ram, [])
  }

  lemma PlaceStart(flash: seq<Segment>, ram: seq<Segment>)
    requires Within(flash) && Within(ram)
    ensures Placing([], flash, 0, ram, ram)
  {
  }

  lemma PlaceEnd(blocks: seq<Block>, flash: seq<Segment>, ram0: seq<Segment>)
    requires Placing(blocks, flash, |flash|, ram0, [])
    ensures Layout(blocks, flash, ram0) && Planned(blocks, flash, |flash|, ram0, [])
  {
  }

  lemma SelectPadding(blocks: seq<Block>, z: Segment)
    ensures Select(blocks + [Block(Padding, z)], Ram) == Select(blocks, Ram)
    ensures Select(blocks + [Block(Padding, z)], Padding) == Select(blocks, Padding) + [z]
    ensures Select(blocks + [Block(Padding, z)], Flash) == Select(blocks, Flash)
  {
  }

  lemma PlacePadding(blocks: seq<Block>, flash: seq<Segment>, k: nat, ram0: seq<Segment>, ram: seq<Segment>, n: nat)
    requires Placing(blocks, flash, k, ram0, ram) && 0 < n < TWO32
    requires k < |flash| && n == PadNeeded(End(blocks), flash[k].addr) && (ram == [] || n <= SEG_HEADER_LEN)
    requires AllWordSized(flash) && AllWordSized(ram0) ==> n % 4 == 0
    ensures Placing(blocks + [Block(Padding, Segment(0, Zeros(n)))], flash, k, ram0, ram)
  {
    PlannedStep(blocks, flash, k, ram0, ram, Block(Padding, Segment(0, Zeros(n))), k, ram);
    hide Planned, End, PadNeeded;
    TidyAppend(blocks, Block(Padding, Segment(0, Zeros(n))), flash, ram0, ram, ram);
    hide Cells, FlashAligned, Select, AllWrittenAs, Tidy, AllWordSized;
    SelectPadding(blocks, Segment(0, Zeros(n)));
    FlashAlignedAppend(blocks, Block(Padding, Segment(0, Zeros(n))));
  }

  /** The first piece of the first RAM segment; rest is what remains of it, if anything. */
  lemma PlaceRam(blocks: seq<Block>, flash: seq<Segment>, k: nat, ram0: seq<Segment>, ram: seq<Segment>,
                 piece: Segment, rest: seq<Segment>)
    requires Placing(blocks, flash, k, ram0, ram) && ram != []
    requires SegmentCells(piece) + Cells(rest) == Cells(ram)
    requires NextStep(Plan(blocks, k, ram), flash) == Plan(blocks + [Block(Ram, piece)], k, rest)
    requires piece.Fits() && Within(rest)
    requires AllWordSized(flash) && AllWordSized(ram0) ==> WordSized(piece) && AllWordSized(rest)
    ensures Placing(blocks + [Block(Ram, piece)], flash, k, ram0, rest)
  {
    hide NextStep;
    PlannedStep(blocks, flash, k, ram0, ram, Block(Ram, piece), k, rest);
    hide Planned;
    TidyAppend(blocks, Block(Ram, piece), flash, ram0, ram, rest);
    hide Cells, FlashAligned, Select, AllWrittenAs, OnlyZeros, Tidy, AllWordSized, WordSized, Within;
    var b, done := Block(Ram, piece), Select(blocks, Ram);
    SelectAppend(blocks, b, Padding);
    SelectAppend(blocks, b, Ram);
    SelectAppend(blocks, b, Flash);
    FlashAlignedAppend(blocks, b);
    CellsConcat(done, [piece]);
    CellsSingle(piece);
    Assoc(Cells(done), SegmentCells(piece), Cells(rest));
  }

  lemma CellsSingle(s: Segment)
    ensures Cells([s]) == SegmentCells(s)
  {
  }

  lemma FlashWrittenFacts(s: Segment, pos: nat)
    ensures FlashWritten(s, pos).addr == s.addr && WrittenAs(s, FlashWritten(s, pos))
    ensures (pos + SEG_HEADER_LEN + |FlashWritten(s, pos).data|) % IROM_ALIGN >= 0x24
  {
  }

  lemma FlashFits(s: Segment, pos: nat)
    requires s.addr + |s.data| + 0x24 < TWO32
    ensures FlashWritten(s, pos).Fits()
    ensures WordSized(s) && FlashTail(pos, |s.data|) % 4 == 0 ==> WordSized(FlashWritten(s, pos))
  {
  }

  lemma FlashTidy(blocks: seq<Block>, flash: seq<Segment>, k: nat, ram0: seq<Segment>, ram: seq<Segment>, w: Segment)
    requires Tidy(blocks, flash, ram0, ram) && k < |flash| && w == FlashWritten(flash[k], End(blocks))
    ensures Tidy(blocks + [Block(Flash, w)], flash, ram0, ram)
  {
    FlashFits(flash[k], End(blocks));
    hide End, FlashWritten, FlashTail, WordSized;
    if AllWordSized(flash) && AllWordSized(ram0) {
      PadWordSized(blocks, flash[k]);
    }
    TidyAppend(blocks, Block(Flash, w), flash, ram0, ram, ram);
  }

  lemma SelectFlash(blocks: seq<Block>, w: Segment)
    ensures Select(blocks + [Block(Flash, w)], Ram) == Select(blocks, Ram)
    ensures Select(blocks + [Block(Flash, w)], Padding) == Select(blocks, Padding)
    ensures Select(blocks + [Block(Flash, w)], Flash) == Select(blocks, Flash) + [w]
  {
  }

  lemma FlashPlanned(blocks: seq<Block>, flash: seq<Segment>, k: nat, ram0: seq<Segment>, ram: seq<Segment>, w: Segment)
    requires Planned(blocks, flash, k, ram0, ram) && k < |flash|
    requires AlignedAt(End(blocks), flash[k].addr) && w == FlashWritten(flash[k], End(blocks))
    ensures Planned(blocks + [Block(Flash, w)], flash, k + 1, ram0, ram)
  {
    PadCloses(End(blocks), flash[k].addr);
    hide Planned, End, FlashWritten, PadNeeded;
    PlannedStep(blocks, flash, k, ram0, ram, Block(Flash, w), k + 1, ram);
  }

  lemma PlaceFlash(blocks: seq<Block>, flash: seq<Segment>, k: nat, ram0: seq<Segment>, ram: seq<Segment>, w: Segment)
    requires Placing(blocks, flash, k, ram0, ram) && k < |flash|
    requires AlignedAt(End(blocks), flash[k].addr) && w == FlashWritten(flash[k], End(blocks))
    ensures Placing(blocks + [Block(Flash, w)], flash, k + 1, ram0, ram)
  {
    hide Planned, Tidy, Cells, FlashAligned, Select, OnlyZeros, End, AllWrittenAs, FlashWritten, WrittenAs, AlignedAt;
    FlashPlanned(blocks, flash, k, ram0, ram, w);
    FlashWrittenFacts(flash[k], End(blocks));
    FlashTidy(blocks, flash, k, ram0, ram, w);
    SelectFlash(blocks, w);
    FlashAlignedAppend(blocks, Block(Flash, w));
    WrittenAppend(flash, k, Select(blocks, Flash), w);
  }

  lemma WrittenAppend(flash: seq<Segment>, k: nat, ws: seq<Segment>, w: Segment)
    requires k < |flash| && AllWrittenAs(flash[..k], ws) && WrittenAs(flash[k], w)
    ensures AllWrittenAs(flash[..k + 1], ws + [w])
  {
  }

  lemma LayoutPadding(blocks: seq<Block>, flash: seq<Segment>, ram: seq<Segment>, n: nat)
    requires Layout(blocks, flash, ram) && n < TWO32
    requires AllWordSized(flash) && AllWordSized(ram) ==> n % 4 == 0
    ensures Layout(blocks + [Block(Padding, Segment(0, Zeros(n)))], flash, ram)
  {
    TidyAppend(blocks, Block(Padding, Segment(0, Zeros(n))), flash, ram, [], []);
    hide Cells, FlashAligned, Select, AllWrittenAs, Tidy, AllWordSized;
    SelectPadding(blocks, Segment(0, Zeros(n)));
    FlashAlignedAppend(blocks, Block(Padding, Segment(0, Zeros(n))));
  }
}
