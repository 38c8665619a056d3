/** Reading a firmware image back. */
module ImageLoader {
  import opened Arithmetic
  import opened Sequences
  import opened LittleEndian
  import opened ImageFormat
  import opened ImageLayout
  import opened ImageWriter
  import opened Options

  datatype LoadResult =
    | Loaded(header: Header, segments: seq<Segment>, checksum: byte, storedDigest: seq<byte>, calcDigest: seq<byte>)
    | Failed

  /** One segment at pos, and the position behind it; None at a premature end of the file. */
  function LoadSegment(f: seq<byte>, pos: nat): (r: Option<(Segment, nat)>)
    ensures r.Some? ==> pos < r.value.1 <= |f|
  {
    if pos + SEG_HEADER_LEN > |f| then None
    else
      var addr, size := WordOf(f[pos..pos + 4]), WordOf(f[pos + 4..pos + 8]);
      var start := pos + SEG_HEADER_LEN;
      if start + size > |f| then None else Some((Padded(Segment(addr, f[start..start + size])), start + size))
  }

  /** n segments from pos on. */
  function LoadSegments(f: seq<byte>, pos: nat, n: nat): (r: Option<(seq<Segment>, nat)>)
    ensures r.Some? ==> |r.value.0| == n
  {
    if n == 0 then Some(([], pos))
    else
      match LoadSegments(f, pos, n - 1)
      case None => None
      case Some((front, next)) =>
        match LoadSegment(f, next)
        case None => None
        case Some((s, end)) => Some((front + [s], end))
  }

  lemma LoadEncoded(f: seq<byte>, pos: nat, s: Segment)
    requires s.Fits() && Holds(f, pos, Encode(s))
    ensures LoadSegment(f, pos) == Some((Padded(s), pos + |Encode(s)|))
  {
    HoldsParts(f, pos, Word(s.addr) + Word(|s.data|), s.data);
    HoldsParts(f, pos, Word(s.addr), Word(|s.data|));
    WordRoundTrip(s.addr);
    WordRoundTrip(|s.data|);
    hide WordOf, Word, Padded;
  }

  lemma LoadOneMore(f: seq<byte>, pos: nat, front: seq<Segment>, next: nat, s: Segment, end: nat)
    requires LoadSegments(f, pos, |front|) == Some((front, next)) && LoadSegment(f, next) == Some((s, end))
    ensures LoadSegments(f, pos, |front| + 1) == Some((front + [s], end))
  {
  }

  /** Reading the body of an image gives its segments. */
  lemma {:induction false} LoadBody(f: seq<byte>, pos: nat, segs: seq<Segment>)
    requires AllFit(segs) && Holds(f, pos, Body(segs))
    ensures LoadSegments(f, pos, |segs|) == Some((AllPadded(segs), pos + |Body(segs)|))
  {
    if segs == [] {
      assert AllPadded(segs) == [];
    } else {
      var front, last := segs[..|segs| - 1], segs[|segs| - 1];
      assert last.Fits() && AllFit(front);
      assert Body(segs) == Body(front) + Encode(last);
      assert AllPadded(segs) == AllPadded(front) + [Padded(last)];
      hide Encode, Body, AllPadded, Padded, LoadSegments, LoadSegment, AllFit, Holds;
      HoldsParts(f, pos, Body(front), Encode(last));
      LoadBody(f, pos, front);
      var mid := pos + |Body(front)|;
      LoadEncoded(f, mid, last);
      LoadOneMore(f, pos, AllPadded(front), mid, Padded(last), mid + |Encode(last)|);
    }
  }

  // ---- The loader ----

  /** The two headers; None if the magic or the digest flag is wrong. */
  function LoadHeader(f: seq<byte>): Option<(Header, nat)> {
    if |f| < HEADER_LEN || f[0] != IMAGE_MAGIC || f[23] > 1 then None
    else Some((Header(f[2], f[3], WordOf(f[4..8]), f[8..23], f[23] == 1), f[1] as nat))
  }

  lemma LoadHeaderBytes(f: seq<byte>, h: Header, count: byte)
    requires h.Valid() && Holds(f, 0, HeaderBytes(h, count))
    ensures LoadHeader(f) == Some((h, count as nat))
  {
    var first, flag := [IMAGE_MAGIC, count, h.flashMode, h.flashSizeFreq], [if h.appendDigest then 1 else 0];
    HoldsParts(f, 0, first + Word(h.entrypoint) + h.extended, flag);
    HoldsParts(f, 0, first + Word(h.entrypoint), h.extended);
    HoldsParts(f, 0, first, Word(h.entrypoint));
    assert forall i :: 0 <= i < 4 ==> f[i] == f[0..4][i];
    assert f[23] == f[23..24][0];
    WordRoundTrip(h.entrypoint);
    hide Word, WordOf;
  }

  method Load(f: seq<byte>, sha256: seq<byte> -> Digest) returns (r: LoadResult)
    ensures r == LoadSpec(f, sha256)
  {
    hide LoadHeader, LoadSegment, AlignTail;
    var header := LoadHeader(f);
    if header.None? {
      return Failed;
    }
    var (h, count) := header.value;
    var segments: seq<Segment> := [];
    var pos := HEADER_LEN;
    var i := 0;
    while i < count
      invariant 0 <= i <= count
      invariant LoadSegments(f, HEADER_LEN, i) == Some((segments, pos))
    {
      var next := LoadSegment(f, pos);
      if next.None? {
        FailsForGood(f, HEADER_LEN, i + 1, count);
        return Failed;
      }
      segments, pos := segments + [next.value.0], next.value.1;
      i := i + 1;
    }
    pos := pos + AlignTail(pos);
    if pos >= |f| {
      return Failed;
    }
    var checksum := f[pos];
    pos := pos + 1;
    var stored, computed: seq<byte> := [], [];
    if h.appendDigest {
      stored := if pos + 32 <= |f| then f[pos..pos + 32] else f[pos..];
      computed := sha256(f[..pos]);
    }
    if |segments| > MAX_SEGMENTS {
      return Failed;
    }
    return Loaded(h, segments, checksum, stored, computed);
  }

  lemma {:induction false} FailsForGood(f: seq<byte>, pos: nat, n: nat, m: nat)
    requires n <= m && LoadSegments(f, pos, n) == None
    ensures LoadSegments(f, pos, m) == None
  {
    if n < m {
      FailsForGood(f, pos, n, m - 1);
    }
  }

  function LoadSpec(f: seq<byte>, sha256: seq<byte> -> Digest): LoadResult {
    match LoadHeader(f)
    case None => Failed
    case Some((h, count)) =>
      match LoadSegments(f, HEADER_LEN, count)
      case None => Failed
      case Some((segments, pos)) =>
        var end := pos + AlignTail(pos);
        if end >= |f| || count > MAX_SEGMENTS then Failed
        else
          var stored := if end + 33 <= |f| then f[end + 1..end + 33] else f[end + 1..];
          if h.appendDigest then Loaded(h, segments, f[end], stored, sha256(f[..end + 1]))
          else Loaded(h, segments, f[end], [], [])
  }

  predicate Fills(f: seq<byte>, pos: nat, end: nat) {
    pos + 8 <= end <= |f| && Stored(f, pos + 4, end - pos - 8)
  }

  /** The positions of n segments, from byte 24 on, and of what follows: every segment has its
      header, and as much data as the header says. */
  predicate Chain(f: seq<byte>, p: seq<nat>, n: nat) {
    |p| == n + 1 && p[0] == 24
    && forall i :: 0 <= i < n ==> Fills(f, p[i], p[i + 1])
  }

  /** The loader accepts a file iff magic and digest flag are right, at most 16 segments are
      announced, all of them are complete, and the checksum is inside the file. */
  predicate Loadable(f: seq<byte>, p: seq<nat>) {
    && |f| >= 24 && f[0] == 0xe9 && f[23] <= 1 && f[1] <= 16
    && Chain(f, p, f[1]) && p[f[1]] + 15 - p[f[1]] % 16 < |f|
  }

  lemma StoredWord(f: seq<byte>, pos: nat, n: nat)
    ensures Stored(f, pos, n) <==> pos + 4 <= |f| && WordOf(f[pos..pos + 4]) == n
  {
    if pos + 4 <= |f| {
      var w := f[pos..pos + 4];
      assert w[0] == f[pos] && w[1] == f[pos + 1] && w[2] == f[pos + 2] && w[3] == f[pos + 3];
    }
  }

  /** The segment between two positions: its address, its data, and up to three zeros. */
  predicate StandsAt(f: seq<byte>, s: Segment, pos: nat, end: nat) {
    && pos + 8 <= end <= |f| && Stored(f, pos, s.addr) && Stored(f, pos + 4, end - pos - 8)
    && f[pos + 8..end] <= s.data && |s.data| < end - pos - 8 + 4
    && (forall k :: end - pos - 8 <= k < |s.data| ==> s.data[k] == 0)
    && (s.addr != 0 ==> |s.data| % 4 == 0) && (s.addr == 0 ==> |s.data| == end - pos - 8)
  }

  lemma SegmentAt(f: seq<byte>, pos: nat, end: nat)
    ensures LoadSegment(f, pos).Some? && LoadSegment(f, pos).value.1 == end <==> Fills(f, pos, end)
    ensures LoadSegment(f, pos).Some? && LoadSegment(f, pos).value.1 == end ==> StandsAt(f, LoadSegment(f, pos).value.0, pos, end)
  {
    if pos + 8 <= |f| {
      StoredWord(f, pos, WordOf(f[pos..pos + 4]));
      StoredWord(f, pos + 4, WordOf(f[pos + 4..pos + 8]));
      if end >= pos + 8 {
        StoredWord(f, pos + 4, end - pos - 8);
      }
      hide Stored, WordOf;
    }
  }

  lemma {:induction false} ChainLoads(f: seq<byte>, p: seq<nat>, n: nat)
    requires Chain(f, p, n)
    ensures var r := LoadSegments(f, 24, n);
            r.Some? && r.value.1 == p[n] && forall i :: 0 <= i < n ==> StandsAt(f, r.value.0[i], p[i], p[i + 1])
  {
    hide StandsAt, LoadSegment, Stored;
    if n > 0 {
      assert Chain(f, p[..n], n - 1);
      ChainLoads(f, p[..n], n - 1);
      SegmentAt(f, p[n - 1], p[n]);
    }
  }

  lemma {:induction false} LoadsChain(f: seq<byte>, n: nat) returns (p: seq<nat>)
    requires LoadSegments(f, 24, n).Some?
    ensures Chain(f, p, n) && p[n] == LoadSegments(f, 24, n).value.1
  {
    hide LoadSegment, Stored;
    if n == 0 {
      p := [24];
    } else {
      p := LoadsChain(f, n - 1);
      var end := LoadSegment(f, p[n - 1]).value.1;
      SegmentAt(f, p[n - 1], end);
      p := p + [end];
    }
  }

  lemma LoadExactly(f: seq<byte>, sha256: seq<byte> -> Digest)
    ensures LoadSpec(f, sha256).Loaded? <==> exists p :: Loadable(f, p)
  {
    hide LoadSegments, Stored, LoadSegment, Chain;
    if p :| Loadable(f, p) {
      ChainLoads(f, p, f[1]);
    }
    if LoadSpec(f, sha256).Loaded? {
      var p := LoadsChain(f, f[1]);
      assert Loadable(f, p);
    }
  }

  /** What the loader makes of a file that it accepts. */
  lemma LoadResults(f: seq<byte>, p: seq<nat>, sha256: seq<byte> -> Digest)
    requires Loadable(f, p)
    ensures var r, n, end := LoadSpec(f, sha256), f[1] as nat, p[f[1]] + 15 - p[f[1]] % 16;
            && r.Loaded? && |r.segments| == n && (forall i :: 0 <= i < n ==> StandsAt(f, r.segments[i], p[i], p[i + 1]))
            && r.header.flashMode == f[2] && r.header.flashSizeFreq == f[3] && Stored(f, 4, r.header.entrypoint)
            && r.header.extended == f[8..23] && r.header.appendDigest == (f[23] == 1) && r.checksum == f[end]
            && if f[23] == 1 then r.storedDigest <= f[end + 1..] && (|r.storedDigest| == 32 || r.storedDigest == f[end + 1..])
                                  && r.calcDigest == sha256(f[..end + 1])
               else r.storedDigest == r.calcDigest == []
  {
    StoredWord(f, 4, WordOf(f[4..8]));
    hide LoadSegments, Stored, LoadSegment, StandsAt, Chain, WordOf;
    ChainLoads(f, p, f[1]);
    assert LoadSpec(f, sha256).Loaded?;
  }

  /** All segments in order, with the checksum computed from them, if the loader takes that
      many. */
  function Reloaded(h: Header, segments: seq<Segment>, digest: seq<byte>): LoadResult {
    if |segments| > MAX_SEGMENTS then LoadResult.Failed
    else Loaded(h, segments, SegmentsChecksum(segments), digest, digest)
  }

  function DigestOf(h: Header, image: seq<byte>, sha256: seq<byte> -> Digest): seq<byte> {
    if h.appendDigest then sha256(image) else []
  }

  /** Where the parts of an image file are. */
  predicate HasParts(file: seq<byte>, h: Header, segs: seq<Segment>, image: seq<byte>, digest: seq<byte>)
    requires h.Valid() && |segs| < 256
  {
    var pos := HEADER_LEN + |Body(segs)|;
    && Holds(file, 0, HeaderBytes(h, |segs|)) && Holds(file, HEADER_LEN, Body(segs))
    && |image| == pos + AlignTail(pos) + 1 && |image| <= |file|
    && file[|image| - 1] == SegmentsChecksum(segs) && file[..|image|] == image && file[|image|..] == digest
  }

  lemma ImageParts(h: Header, segs: seq<Segment>, digest: seq<byte>)
    requires h.Valid() && |segs| < 256
    ensures HasParts(ImageBytes(h, segs) + digest, h, segs, ImageBytes(h, segs), digest)
  {
  }

  lemma LoadParts(file: seq<byte>, h: Header, segs: seq<Segment>, image: seq<byte>, sha256: seq<byte> -> Digest)
    requires h.Valid() && |segs| < 256 && AllFit(segs)
    requires HasParts(file, h, segs, image, DigestOf(h, image, sha256))
    ensures LoadSpec(file, sha256) == Reloaded(h, AllPadded(segs), DigestOf(h, image, sha256))
  {
    hide Body, LoadHeader, LoadSegments, LoadSpec, SegmentsChecksum, AlignTail, HeaderBytes, AllFit, Holds, AllPadded, Reloaded, DigestOf;
    AllPaddedChecksum(segs);
    LoadHeaderBytes(file, h, |segs|);
    LoadBody(file, HEADER_LEN, segs);
    LoadOutcome(file, image, sha256, h, AllPadded(segs), HEADER_LEN + |Body(segs)|, DigestOf(h, image, sha256));
  }

  /** Loading what was saved: all segments come back in order, the checksum computed from
      them is the stored one, and so is the digest. But the loader takes no image of more
      than 16 segments, although the writer counts up to 255. */
  lemma SaveLoad(h: Header, segs: seq<Segment>, sha256: seq<byte> -> Digest)
    requires h.Valid() && |segs| < 256 && AllFit(segs)
    ensures LoadSpec(WithDigest(h, ImageBytes(h, segs), sha256), sha256)
         == Reloaded(h, AllPadded(segs), DigestOf(h, ImageBytes(h, segs), sha256))
  {
    hide HasParts, LoadSpec, Reloaded, ImageBytes, AllFit;
    var image := ImageBytes(h, segs);
    ImageParts(h, segs, DigestOf(h, image, sha256));
    assert WithDigest(h, image, sha256) == image + DigestOf(h, image, sha256);
    LoadParts(WithDigest(h, image, sha256), h, segs, image, sha256);
  }

  function Words(n: nat): (segs: seq<Segment>)
    requires n <= 0x1000
    ensures |segs| == n && AllFit(segs) && AllWordSized(segs)
  {
    if n == 0 then [] else Words(n - 1) + [Segment(0x3ffb0000 + 16 * n, Zeros(4))]
  }

  /** An image of seventeen words, which the loader refuses. */
  lemma SeventeenSegments(h: Header, sha256: seq<byte> -> Digest) returns (segs: seq<Segment>)
    requires h.Valid()
    ensures |segs| == 17 && AllFit(segs) && AllWordSized(segs)
    ensures LoadSpec(WithDigest(h, ImageBytes(h, segs), sha256), sha256) == LoadResult.Failed
  {
    segs := Words(17);
    hide LoadSpec, WithDigest, ImageBytes;
    SaveLoad(h, segs, sha256);
  }

  /** What the loader makes of a file whose parts are known. */
  lemma LoadOutcome(f: seq<byte>, image: seq<byte>, sha256: seq<byte> -> Digest, h: Header, segments: seq<Segment>,
                    pos: nat, digest: seq<byte>)
    requires LoadHeader(f) == Some((h, |segments|))
    requires LoadSegments(f, HEADER_LEN, |segments|) == Some((segments, pos))
    requires |image| == pos + AlignTail(pos) + 1 && |image| <= |f|
    requires f[|image| - 1] == SegmentsChecksum(segments) && f[..|image|] == image && f[|image|..] == digest
    requires digest == DigestOf(h, image, sha256)
    ensures LoadSpec(f, sha256) == Reloaded(h, segments, digest)
  {
    hide LoadHeader, LoadSegments, AlignTail, SegmentsChecksum;
    var end := pos + AlignTail(pos);
    assert f[end] == SegmentsChecksum(segments) && f[..end + 1] == image;
    assert f[end + 1..] == digest;
    if h.appendDigest {
      assert |f| == end + 33 && f[end + 1..end + 33] == f[end + 1..];
    }
  }

  /** For an image that was saved from segments of whole words, the loader returns the very
      segments that were written. */
  lemma SavedSegmentsReturn(h: Header, blocks: seq<Block>, flash: seq<Segment>, ram: seq<Segment>, pad: SecurePad,
                            sha256: seq<byte> -> Digest, image: seq<byte>)
    requires h.Valid() && Complete(h, blocks, flash, ram, pad, sha256, image)
    requires AllWordSized(flash) && AllWordSized(ram) && |blocks| <= MAX_SEGMENTS
    ensures LoadSpec(image, sha256).Loaded?
    ensures LoadSpec(image, sha256).header == h
    ensures LoadSpec(image, sha256).segments == Segments(blocks)
    ensures LoadSpec(image, sha256).checksum == SegmentsChecksum(LoadSpec(image, sha256).segments)
    ensures LoadSpec(image, sha256).storedDigest == LoadSpec(image, sha256).calcDigest
  {
    hide *;
    CompleteFacts(h, blocks, flash, ram, pad, sha256, image);
    SaveLoad(h, Segments(blocks), sha256);
    WordsStay(Segments(blocks));
    ReloadedFacts(h, Segments(blocks), DigestOf(h, ImageBytes(h, Segments(blocks)), sha256));
  }

  lemma CompleteFacts(h: Header, blocks: seq<Block>, flash: seq<Segment>, ram: seq<Segment>, pad: SecurePad,
                      sha256: seq<byte> -> Digest, image: seq<byte>)
    requires h.Valid() && Complete(h, blocks, flash, ram, pad, sha256, image)
    requires AllWordSized(flash) && AllWordSized(ram)
    ensures |blocks| < 256 && AllFit(Segments(blocks)) && AllWordSized(Segments(blocks))
    ensures image == WithDigest(h, ImageBytes(h, Segments(blocks)), sha256)
  {
    hide FlashAligned, AllWrittenAs, Cells, OnlyZeros, AllFit, AllWordSized, ImageBytes, Select, PlannedWith;
  }

  lemma WordsStay(segs: seq<Segment>)
    requires AllWordSized(segs)
    ensures AllPadded(segs) == segs
  {
    assert forall i :: 0 <= i < |segs| ==> WordSized(segs[i]);
  }

  lemma ReloadedFacts(h: Header, segs: seq<Segment>, digest: seq<byte>)
    requires |segs| <= MAX_SEGMENTS
    ensures Reloaded(h, segs, digest) == Loaded(h, segs, SegmentsChecksum(segs), digest, digest)
  {
  }
}
