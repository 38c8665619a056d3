/** The layout of an ESP32 firmware image: a header of 24 bytes, the segments with a header
    of 8 bytes each, and a checksum byte that ends a block of 16. */
module ImageFormat {
  import opened Arithmetic
  import opened Sequences
  import opened LittleEndian

  const IMAGE_MAGIC: byte := 0xe9
  const CHECKSUM_MAGIC: byte := 0xef
  const SEG_HEADER_LEN := 8
  const HEADER_LEN := 24 // common and extended header
  const IROM_ALIGN := 65536
  const MAX_SEGMENTS := 16

  datatype Segment = Segment(addr: nat, data: seq<byte>) {
    /** What a header can hold. */
    predicate Fits() { addr < TWO32 && |data| < TWO32 }
  }

  // ---- Segments ----

  function Encode(s: Segment): (e: seq<byte>)
    ensures |e| == SEG_HEADER_LEN + |s.data|
  {
    Word(s.addr) + Word(|s.data|) + s.data
  }

  /** A segment in the file: its address and the length of its data, the least significant byte
      first, then the data. */
  lemma SegmentLayout(s: Segment)
    requires s.Fits()
    ensures Stored(Encode(s), 0, s.addr) && Stored(Encode(s), 4, |s.data|) && Encode(s)[8..] == s.data
  {
    var e := Encode(s);
    HoldsParts(e, 0, Word(s.addr) + Word(|s.data|), s.data);
    HoldsParts(e, 0, Word(s.addr), Word(|s.data|));
    hide Word;
    WordStored(e, 0, s.addr);
    WordStored(e, 4, |s.data|);
  }

  function Body(segs: seq<Segment>): seq<byte> {
    if segs == [] then [] else Body(segs[..|segs| - 1]) + Encode(segs[|segs| - 1])
  }

  lemma BodyAppend(segs: seq<Segment>, s: Segment)
    ensures Body(segs + [s]) == Body(segs) + Encode(s)
  {
  }

  /** Every segment stands directly behind those in front of it. */
  lemma {:induction false} BodyAt(segs: seq<Segment>, i: nat)
    requires i < |segs|
    ensures Holds(Body(segs), |Body(segs[..i])|, Encode(segs[i]))
    ensures |Body(segs[..i + 1])| == |Body(segs[..i])| + 8 + |segs[i].data|
  {
    hide Encode;
    var front := segs[..|segs| - 1];
    assert segs[..i + 1][..i] == segs[..i];
    if i < |front| {
      BodyAt(front, i);
      assert front[..i] == segs[..i];
    } else {
      assert segs[..i + 1] == segs;
    }
  }

  /** Every address with the byte that is loaded there. */
  function Cells(segs: seq<Segment>): seq<(nat, byte)> {
    if segs == [] then [] else SegmentCells(segs[0]) + Cells(segs[1..])
  }

  function SegmentCells(s: Segment): (c: seq<(nat, byte)>)
    ensures |c| == |s.data|
  {
    seq(|s.data|, i requires 0 <= i < |s.data| => (s.addr + i, s.data[i]))
  }

  lemma {:induction false} CellsConcat(a: seq<Segment>, b: seq<Segment>)
    ensures Cells(a + b) == Cells(a) + Cells(b)
  {
    if a == [] {
      assert a + b == b;
    } else {
      assert (a + b)[1..] == a[1..] + b;
      CellsConcat(a[1..], b);
      Assoc(SegmentCells(a[0]), Cells(a[1..]), Cells(b));
    }
  }

  // ---- The checksum ----

  /** Bitwise exclusive or. */
  function Xor(a: nat, b: nat): nat
    decreases a + b
  {
    if a == 0 && b == 0 then 0 else (a + b) % 2 + 2 * Xor(a / 2, b / 2)
  }

  lemma {:induction false} XorZero(a: nat)
    ensures Xor(a, 0) == a
  {
    if a > 0 {
      XorZero(a / 2);
    }
  }

  lemma {:induction false} XorBound(a: nat, b: nat, k: nat, limit: nat)
    requires a < limit && b < limit && limit == Power2(k)
    ensures Xor(a, b) < limit
  {
    if k > 0 && (a > 0 || b > 0) {
      XorBound(a / 2, b / 2, k - 1, limit / 2);
    }
  }

  function Power2(k: nat): nat {
    if k == 0 then 1 else 2 * Power2(k - 1)
  }

  /** Bit k of a number. */
  function Bit(n: nat, k: nat): nat {
    if k == 0 then n % 2 else Bit(n / 2, k - 1)
  }

  lemma {:induction false} XorBit(a: nat, b: nat, k: nat)
    ensures Bit(Xor(a, b), k) == (Bit(a, k) + Bit(b, k)) % 2
  {
    XorHalves(a, b);
    hide Xor;
    if k > 0 {
      XorBit(a / 2, b / 2, k - 1);
    }
  }

  lemma XorHalves(a: nat, b: nat)
    ensures Xor(a, b) / 2 == Xor(a / 2, b / 2) && Xor(a, b) % 2 == (a % 2 + b % 2) % 2
  {
    XorStep(a, b);
    hide Xor;
    LowBit((a % 2 + b % 2) % 2, Xor(a / 2, b / 2));
  }

  lemma XorStep(a: nat, b: nat)
    ensures Xor(a, b) == (a % 2 + b % 2) % 2 + 2 * Xor(a / 2, b / 2)
  {
    Parity(a, b);
  }

  lemma Parity(a: nat, b: nat)
    ensures (a + b) % 2 == (a % 2 + b % 2) % 2
  {
    assert a + b == a % 2 + b % 2 + 2 * (a / 2 + b / 2);
  }

  lemma LowBit(low: nat, half: nat)
    requires low < 2
    ensures (low + 2 * half) / 2 == half && (low + 2 * half) % 2 == low
  {
  }

  function XorByte(a: byte, b: byte): byte {
    XorBound(a, b, 8, 256);
    Xor(a, b)
  }

  function Checksum(data: seq<byte>, state: byte): byte {
    if data == [] then state else XorByte(Checksum(data[..|data| - 1], state), data[|data| - 1])
  }

  /** How many bytes have bit k set. */
  function Ones(data: seq<byte>, k: nat): nat {
    if data == [] then 0 else Ones(data[..|data| - 1], k) + Bit(data[|data| - 1], k)
  }

  lemma {:induction false} ChecksumBit(data: seq<byte>, state: byte, k: nat)
    ensures Bit(Checksum(data, state), k) == (Bit(state, k) + Ones(data, k)) % 2
  {
    if data == [] {
      BitIsBit(state, k);
    } else {
      var front := Checksum(data[..|data| - 1], state);
      ChecksumBit(data[..|data| - 1], state, k);
      XorBit(front, data[|data| - 1], k);
      hide Bit, Ones, Checksum, Xor;
      ModSum(Bit(state, k) + Ones(data[..|data| - 1], k), Bit(data[|data| - 1], k));
    }
  }

  lemma {:induction false} BitIsBit(n: nat, k: nat)
    ensures Bit(n, k) < 2
  {
    if k > 0 {
      BitIsBit(n / 2, k - 1);
    }
  }

  lemma ModSum(a: nat, b: nat)
    ensures (a % 2 + b) % 2 == (a + b) % 2
  {
  }

  lemma {:induction false} ChecksumConcat(a: seq<byte>, b: seq<byte>, state: byte)
    ensures Checksum(a + b, state) == Checksum(b, Checksum(a, state))
  {
    if b == [] {
      assert a + b == a;
    } else {
      assert (a + b)[..|a + b| - 1] == a + b[..|b| - 1];
      ChecksumConcat(a, b[..|b| - 1], state);
    }
  }

  lemma {:induction false} ChecksumZeros(data: seq<byte>, state: byte)
    requires forall i :: 0 <= i < |data| ==> data[i] == 0
    ensures Checksum(data, state) == state
  {
    if data != [] {
      ChecksumZeros(data[..|data| - 1], state);
      XorZero(state);
    }
  }

  function SegmentsChecksum(segs: seq<Segment>): byte {
    if segs == [] then CHECKSUM_MAGIC
    else Checksum(segs[|segs| - 1].data, SegmentsChecksum(segs[..|segs| - 1]))
  }

  function AllOnes(segs: seq<Segment>, k: nat): nat {
    if segs == [] then 0 else AllOnes(segs[..|segs| - 1], k) + Ones(segs[|segs| - 1].data, k)
  }

  /** In each of its bits, the checksum tells whether an even or an odd number of data bytes have
      this bit set, starting from 0xef. */
  lemma {:induction false} SegmentsChecksumBit(segs: seq<Segment>, k: nat)
    ensures Bit(SegmentsChecksum(segs), k) == (Bit(0xef, k) + AllOnes(segs, k)) % 2
  {
    if segs == [] {
      BitIsBit(0xef, k);
    } else {
      var front := segs[..|segs| - 1];
      SegmentsChecksumBit(front, k);
      ChecksumBit(segs[|segs| - 1].data, SegmentsChecksum(front), k);
      hide Bit, Ones, Checksum;
      ModSum(Bit(0xef, k) + AllOnes(front, k), Ones(segs[|segs| - 1].data, k));
    }
  }

  lemma ChecksumAppend(segs: seq<Segment>, s: Segment)
    ensures SegmentsChecksum(segs + [s]) == Checksum(s.data, SegmentsChecksum(segs))
  {
  }

  // ---- Padding ----

  function Zeros(n: nat): (z: seq<byte>)
    ensures |z| == n && forall i :: 0 <= i < n ==> z[i] == 0
  {
    seq(n, _ => 0)
  }

  /** Real segments are padded to a multiple of 4 bytes when they are constructed. */
  function Padded(s: Segment): (p: Segment)
    ensures p.addr == s.addr && s.data <= p.data
    ensures s.addr == 0 || |s.data| % 4 == 0 ==> p == s
    ensures s.addr != 0 ==> |p.data| % 4 == 0 && |p.data| < |s.data| + 4
    ensures forall i :: |s.data| <= i < |p.data| ==> p.data[i] == 0
  {
    var mod := |s.data| % 4;
    if s.addr != 0 && mod != 0 then Segment(s.addr, s.data + Zeros(4 - mod)) else s
  }

  lemma PaddedChecksum(s: Segment, state: byte)
    ensures Checksum(Padded(s).data, state) == Checksum(s.data, state)
  {
    if Padded(s) != s {
      var z := Zeros(4 - |s.data| % 4);
      ChecksumConcat(s.data, z, state);
      ChecksumZeros(z, Checksum(s.data, state));
    }
  }

  function AllPadded(segs: seq<Segment>): (p: seq<Segment>)
    ensures |p| == |segs|
    ensures forall i :: 0 <= i < |p| ==> p[i] == Padded(segs[i])
  {
    seq(|segs|, i requires 0 <= i < |segs| => Padded(segs[i]))
  }

  lemma {:induction false} AllPaddedChecksum(segs: seq<Segment>)
    ensures SegmentsChecksum(AllPadded(segs)) == SegmentsChecksum(segs)
  {
    if segs != [] {
      var front, last := segs[..|segs| - 1], segs[|segs| - 1];
      AllPaddedChecksum(front);
      assert AllPadded(segs)[..|segs| - 1] == AllPadded(front);
      PaddedChecksum(last, SegmentsChecksum(front));
    }
  }

  /** The checksum ends a block of 16 bytes. */
  function AlignTail(pos: nat): (n: nat)
    ensures (pos + n + 1) % 16 == 0 && n < 16
  {
    15 - pos % 16
  }
}
