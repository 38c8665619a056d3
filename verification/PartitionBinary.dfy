/** The binary form of a partition table: records of 32 bytes, an optional MD5 record, and
    an end marker of 0xFF bytes that fills the rest of the sector. */
module PartitionBinary {
  import opened Arithmetic
  import opened Sequences
  import opened LittleEndian
  import opened Options

  const RECORD := 32
  const MAX_PARTITION_LENGTH := 0xC00
  const NAME_LENGTH := 16
  const MAGIC_BYTES: seq<byte> := [0xAA, 0x50]
  const MD5_MAGIC: seq<byte> := [0xEB, 0xEB]

  type Digest = d: seq<byte> | |d| == 16 witness Fill<byte>(16, 0)

  /** One partition, with the bytes of its encoded name. */
  datatype Entry = Entry(name: seq<byte>, ptype: int, subtype: int, offset: int, size: int, encrypted: bool) {
    /** What the packed structure can hold. */
    predicate InRange() {
      0 <= ptype < 256 && 0 <= subtype < 256 && 0 <= offset < TWO32 && 0 <= size < TWO32
    }
  }

  /** Erased flash, with which a table ends. */
  function Erased(n: nat): (s: seq<byte>)
    ensures |s| == n && forall i :: 0 <= i < n ==> s[i] == 0xFF
  {
    Fill<byte>(n, 0xFF)
  }

  // ---- Records ----

  /** A name fills 16 bytes: it is cut off, or padded with NUL. */
  function NameField(name: seq<byte>): (f: seq<byte>)
    ensures |f| == NAME_LENGTH
  {
    if |name| >= NAME_LENGTH then name[..NAME_LENGTH] else name + Fill<byte>(NAME_LENGTH - |name|, 0)
  }

  /** Up to the first NUL. */
  function CutAtNul(s: seq<byte>): seq<byte> {
    if s == [] || s[0] == 0 then [] else [s[0]] + CutAtNul(s[1..])
  }

  lemma {:induction false} CutAtNulKeeps(s: seq<byte>)
    ensures CutAtNul(s) <= s && 0 !in CutAtNul(s)
  {
    if s != [] && s[0] != 0 {
      CutAtNulKeeps(s[1..]);
      assert s == [s[0]] + s[1..];
    }
  }

  lemma {:induction false} CutAtNulAt(s: seq<byte>, n: nat)
    requires n <= |s| && 0 !in s[..n] && (n < |s| ==> s[n] == 0)
    ensures CutAtNul(s) == s[..n]
  {
    if n > 0 {
      assert s[0] in s[..n];
      assert s[..n] == [s[0]] + s[1..][..n - 1];
      CutAtNulAt(s[1..], n - 1);
    }
  }

  /** The name that is found again in the record. */
  function StoredName(name: seq<byte>): seq<byte> {
    CutAtNul(NameField(name))
  }

  /** A name survives iff it is not too long and has no NUL in it. */
  lemma NameSurvives(name: seq<byte>)
    ensures StoredName(name) == name <==> |name| <= NAME_LENGTH && 0 !in name
  {
    var f := NameField(name);
    CutAtNulKeeps(f);
    if |name| <= NAME_LENGTH && 0 !in name {
      assert f[..|name|] == name;
      CutAtNulAt(f, |name|);
    }
  }

  /** It is cut off after 16 bytes, and at the first NUL. */
  lemma StoredNameIs(name: seq<byte>)
    ensures var n := |StoredName(name)|;
            && n <= 16 && n <= |name| && StoredName(name) == name[..n] && 0 !in name[..n]
            && (n < 16 && n < |name| ==> name[n] == 0)
  {
    var f := NameField(name);
    var n := NulFrom(name, 0);
    assert f[..n] == name[..n];
    CutAtNulAt(f, n);
  }

  /** The first NUL from position i on, or where the name or its field ends. */
  function NulFrom(name: seq<byte>, i: nat): (n: nat)
    requires i <= 16 && i <= |name| && 0 !in name[..i]
    ensures n <= 16 && n <= |name| && 0 !in name[..n] && (n < 16 && n < |name| ==> name[n] == 0)
    decreases 16 - i
  {
    if i == 16 || i == |name| || name[i] == 0 then i else NulFrom(name, i + 1)
  }

  function EntryToBinary(e: Entry): (r: seq<byte>)
    requires e.InRange()
    ensures |r| == RECORD
  {
    MAGIC_BYTES + [e.ptype, e.subtype] + Word(e.offset) + Word(e.size) + NameField(e.name)
    + Word(if e.encrypted then 1 else 0)
  }

  /** Where the fields of a record stand. */
  lemma RecordLayout(e: Entry)
    requires e.InRange()
    ensures var r := EntryToBinary(e);
            && r[0] == 0xAA && r[1] == 0x50 && r[2] == e.ptype && r[3] == e.subtype
            && LittleEndian.Stored(r, 4, e.offset) && LittleEndian.Stored(r, 8, e.size)
            && (forall i :: 0 <= i < 16 ==> r[12 + i] == if i < |e.name| then e.name[i] else 0)
            && r[28] == (if e.encrypted then 1 else 0) && r[29] == r[30] == r[31] == 0
  {
    var r := EntryToBinary(e);
    RecordParts(e);
    hide EntryToBinary, Word, NameField;
    WordStored(r, 4, e.offset);
    WordStored(r, 8, e.size);
    NameBytes(r, e.name);
    FlagBytes(r, e.encrypted);
    assert r[0] == r[0..4][0] && r[1] == r[0..4][1] && r[2] == r[0..4][2] && r[3] == r[0..4][3];
  }

  lemma RecordParts(e: Entry)
    requires e.InRange()
    ensures var r := EntryToBinary(e);
            && Holds(r, 0, [0xAA, 0x50, e.ptype, e.subtype]) && Holds(r, 4, Word(e.offset)) && Holds(r, 8, Word(e.size))
            && Holds(r, 12, NameField(e.name)) && Holds(r, 28, Word(if e.encrypted then 1 else 0))
  {
    var r, head := EntryToBinary(e), MAGIC_BYTES + [e.ptype, e.subtype];
    var flags := Word(if e.encrypted then 1 else 0);
    assert Holds(r, 0, r);
    hide Word, NameField, Holds;
    HoldsParts(r, 0, head + Word(e.offset) + Word(e.size) + NameField(e.name), flags);
    HoldsParts(r, 0, head + Word(e.offset) + Word(e.size), NameField(e.name));
    HoldsParts(r, 0, head + Word(e.offset), Word(e.size));
    HoldsParts(r, 0, head, Word(e.offset));
    assert head == [0xAA, 0x50, e.ptype, e.subtype];
  }

  lemma NameBytes(r: seq<byte>, name: seq<byte>)
    requires Holds(r, 12, NameField(name))
    ensures forall i :: 0 <= i < 16 ==> r[12 + i] == if i < |name| then name[i] else 0
  {
    var f := NameField(name);
    forall i | 0 <= i < 16 ensures r[12 + i] == if i < |name| then name[i] else 0 {
      assert r[12 + i] == r[12..28][i] == f[i];
    }
  }

  lemma FlagBytes(r: seq<byte>, flag: bool)
    requires Holds(r, 28, Word(if flag then 1 else 0))
    ensures r[28] == (if flag then 1 else 0) && r[29] == r[30] == r[31] == 0
  {
    var w := r[28..32];
    assert r[28] == w[0] && r[29] == w[1] && r[30] == w[2] && r[31] == w[3];
  }

  /** None for a record without the magic bytes. Unknown flags are only worth a warning. */
  function EntryFromBinary(r: seq<byte>): Option<Entry>
    requires |r| == RECORD
  {
    if r[..2] != MAGIC_BYTES then None
    else Some(Entry(CutAtNul(r[12..28]), r[2] as int, r[3] as int, WordOf(r[4..8]), WordOf(r[8..12]),
                    WordOf(r[28..32]) % 2 == 1))
  }

  /** What is read from a record with the magic bytes: of the flags only the lowest bit. */
  lemma RecordReads(r: seq<byte>)
    requires |r| == 32
    ensures EntryFromBinary(r).Some? <==> r[0] == 0xAA && r[1] == 0x50
    ensures EntryFromBinary(r).Some? ==>
      var e := EntryFromBinary(r).value;
      && e.InRange() && e.ptype == r[2] && e.subtype == r[3]
      && LittleEndian.Stored(r, 4, e.offset) && LittleEndian.Stored(r, 8, e.size)
      && e.name <= r[12..28] && 0 !in e.name && (|e.name| < 16 ==> r[12 + |e.name|] == 0)
      && e.encrypted == (r[28] % 2 == 1)
  {
    assert r[..2] == MAGIC_BYTES <==> r[0] == 0xAA && r[1] == 0x50 by {
      assert r[..2][0] == r[0] && r[..2][1] == r[1];
    }
    var a, b, c := r[4..8], r[8..12], r[28..32];
    assert a[0] == r[4] && a[1] == r[5] && a[2] == r[6] && a[3] == r[7];
    assert b[0] == r[8] && b[1] == r[9] && b[2] == r[10] && b[3] == r[11];
    assert c[0] == r[28];
    CutAtNulKeeps(r[12..28]);
    CutAtNulEnds(r[12..28]);
    LowestBit(c);
    hide CutAtNul;
  }

  lemma LowestBit(w: seq<byte>)
    requires |w| == 4
    ensures WordOf(w) % 2 == w[0] as nat % 2
  {
    assert WordOf(w) == w[0] as nat + 2 * (128 * w[1] as nat + 32768 * w[2] as nat + 8388608 * w[3] as nat);
  }

  lemma {:induction false} CutAtNulEnds(s: seq<byte>)
    ensures var n := |CutAtNul(s)|; n <= |s| && (n < |s| ==> s[n] == 0)
  {
    if s != [] && s[0] != 0 {
      CutAtNulEnds(s[1..]);
    }
  }

  /** What a partition looks like after writing and reading it. */
  function Stored(e: Entry): Entry {
    e.(name := StoredName(e.name))
  }

  lemma EntryRoundTrip(e: Entry)
    requires e.InRange()
    ensures EntryFromBinary(EntryToBinary(e)) == Some(Stored(e))
  {
    var r := EntryToBinary(e);
    var flags := if e.encrypted then 1 else 0;
    WordRoundTrip(e.offset);
    WordRoundTrip(e.size);
    WordRoundTrip(flags);
    assert r[..2] == MAGIC_BYTES && r[2] as int == e.ptype && r[3] as int == e.subtype;
    assert r[4..8] == Word(e.offset);
    assert r[8..12] == Word(e.size);
    assert r[12..28] == NameField(e.name);
    assert r[28..32] == Word(flags);
  }

  // ---- Tables ----

  predicate AllInRange(t: seq<Entry>) {
    forall e <- t :: e.InRange()
  }

  function Records(t: seq<Entry>): (r: seq<byte>)
    requires AllInRange(t)
    ensures |r| == RECORD * |t|
  {
    if t == [] then [] else Records(t[..|t| - 1]) + EntryToBinary(t[|t| - 1])
  }

  function Md5Record(records: seq<byte>, md5: seq<byte> -> Digest): (r: seq<byte>)
    ensures |r| == RECORD && r[..2] == MD5_MAGIC && r[16..] == md5(records)
    ensures r[0] == r[1] == 0xEB && forall i :: 2 <= i < 16 ==> r[i] == 0xFF
  {
    MD5_MAGIC + Erased(14) + md5(records)
  }

  function Checksum(records: seq<byte>, md5sum: bool, md5: seq<byte> -> Digest): (r: seq<byte>)
    ensures |r| == if md5sum then RECORD else 0
  {
    if md5sum then Md5Record(records, md5) else []
  }

  /** None if a field does not fit or the table is too long. */
  function ToBinary(t: seq<Entry>, md5sum: bool, md5: seq<byte> -> Digest): Option<seq<byte>> {
    if !AllInRange(t) then None
    else
      var records := Records(t);
      var result := records + Checksum(records, md5sum, md5);
      if |result| >= MAX_PARTITION_LENGTH then None
      else Some(result + Erased(MAX_PARTITION_LENGTH - |result|))
  }

  /** A table fits iff all its fields do, and there are at most 95 records with the checksum. */
  lemma TableFits(t: seq<Entry>, md5sum: bool, md5: seq<byte> -> Digest)
    ensures ToBinary(t, md5sum, md5).Some? <==> AllInRange(t) && |t| + (if md5sum then 1 else 0) <= 95
  {
    hide Records, AllInRange;
  }

  /** What one record means to the reader; hashed are the records counted for the checksum. */
  datatype Meaning = End | Checked | Bad | Partition(entry: Entry)

  function Interpret(data: seq<byte>, hashed: seq<byte>, md5sum: bool, md5: seq<byte> -> Digest): Meaning {
    if |data| != RECORD then Bad
    else if data == Erased(RECORD) then End
    else if md5sum && data[..2] == MD5_MAGIC then
      if data[16..] == md5(hashed) then Checked else Bad
    else
      match EntryFromBinary(data)
      case None => Bad
      case Some(e) => Partition(e)
  }

  function Prepend(front: seq<Entry>, rest: Option<seq<Entry>>): Option<seq<Entry>> {
    if rest.None? then None else Some(front + rest.value)
  }

  /** The entries from position o on. None is an error: a wrong length, magic or checksum, or
      no end marker. */
  function Parse(b: seq<byte>, o: nat, hashed: seq<byte>, md5sum: bool, md5: seq<byte> -> Digest): Option<seq<Entry>>
    requires o <= |b|
    decreases |b| - o
  {
    if o + RECORD > |b| then None
    else
      var data := b[o..o + RECORD];
      match Interpret(data, hashed, md5sum, md5)
      case Bad => None
      case End => Some([])
      case Checked => Parse(b, o + RECORD, hashed, md5sum, md5)
      case Partition(e) => Prepend([e], Parse(b, o + RECORD, hashed + data, md5sum, md5))
  }

  lemma PrependTwice(a: seq<Entry>, c: seq<Entry>, rest: Option<seq<Entry>>)
    ensures Prepend(a, Prepend(c, rest)) == Prepend(a + c, rest)
    ensures Prepend([], rest) == rest && Prepend(a, Some([])) == Some(a)
  {
    assert a + [] == a;
    if rest.Some? {
      Assoc(a, c, rest.value);
      assert [] + rest.value == rest.value;
    }
  }

  method FromBinary(b: seq<byte>, md5sum: bool, md5: seq<byte> -> Digest) returns (r: Option<seq<Entry>>)
    ensures r == Parse(b, 0, [], md5sum, md5)
  {
    var result: seq<Entry> := [];
    var hashed: seq<byte> := [];
    var o := 0;
    PrependTwice([], [], Parse(b, 0, [], md5sum, md5));
    while o < |b|
      invariant 0 <= o <= |b|
      invariant Parse(b, 0, [], md5sum, md5) == Prepend(result, Parse(b, o, hashed, md5sum, md5))
    {
      if o + RECORD > |b| {
        return None;
      }
      var data := b[o..o + RECORD];
      if data == Erased(RECORD) {
        PrependTwice(result, [], None);
        return Some(result);
      }
      if md5sum && data[..2] == MD5_MAGIC {
        if data[16..] != md5(hashed) {
          return None;
        }
      } else {
        hashed := hashed + data;
        var e := EntryFromBinary(data);
        if e.None? {
          return None;
        }
        PrependTwice(result, [e.value], Parse(b, o + RECORD, hashed, md5sum, md5));
        result := result + [e.value];
      }
      o := o + RECORD;
    }
    return None;
  }

  function AllStored(t: seq<Entry>): seq<Entry> {
    if t == [] then [] else [Stored(t[0])] + AllStored(t[1..])
  }

  lemma AllStoredFrom(t: seq<Entry>, i: nat)
    requires i < |t|
    ensures AllStored(t[i..]) == [Stored(t[i])] + AllStored(t[i + 1..])
  {
  }

  lemma PrefixInRange(t: seq<Entry>, n: nat)
    requires AllInRange(t) && n <= |t|
    ensures AllInRange(t[..n])
  {
  }

  lemma {:induction false} RecordsPrefix(t: seq<Entry>, n: nat)
    requires AllInRange(t) && n <= |t|
    ensures AllInRange(t[..n]) && Holds(Records(t), 0, Records(t[..n]))
  {
    PrefixInRange(t, n);
    if n == |t| {
      assert t[..n] == t;
    } else {
      var front := t[..|t| - 1];
      assert front[..n] == t[..n];
      RecordsPrefix(front, n);
      assert Holds(Records(t), 0, Records(front));
      hide Records, Holds;
      HoldsWithin(Records(t), Records(front), 0, Records(t[..n]));
    }
  }

  lemma RecordsOneMore(t: seq<Entry>, i: nat)
    requires AllInRange(t) && i < |t|
    ensures AllInRange(t[..i]) && AllInRange(t[..i + 1]) && t[i].InRange()
    ensures Records(t[..i + 1]) == Records(t[..i]) + EntryToBinary(t[i])
  {
    assert t[i].InRange();
    hide AllInRange, EntryToBinary;
    PrefixInRange(t, i);
    PrefixInRange(t, i + 1);
    assert t[..i + 1][..i] == t[..i];
  }

  lemma RecordAt(t: seq<Entry>, i: nat)
    requires AllInRange(t) && i < |t|
    ensures AllInRange(t[..i]) && AllInRange(t[..i + 1]) && t[i].InRange()
    ensures Records(t[..i + 1]) == Records(t[..i]) + EntryToBinary(t[i])
    ensures Holds(Records(t), RECORD * i, EntryToBinary(t[i]))
  {
    hide *;
    RecordsOneMore(t, i);
    RecordsPrefix(t, i + 1);
    HoldsParts(Records(t), 0, Records(t[..i]), EntryToBinary(t[i]));
  }

  /** A written partition reads as that partition, never as a marker. */
  lemma EntryReads(e: Entry, hashed: seq<byte>, md5sum: bool, md5: seq<byte> -> Digest)
    requires e.InRange()
    ensures Interpret(EntryToBinary(e), hashed, md5sum, md5) == Partition(Stored(e))
  {
    EntryRoundTrip(e);
    assert EntryToBinary(e)[..2] == MAGIC_BYTES;
    assert EntryToBinary(e)[..2][0] == EntryToBinary(e)[0] == 0xAA;
    assert MD5_MAGIC[0] == 0xEB;
  }

  /** The markers never read as a partition: the checksum as a checksum or as an error, the
      end marker as the end. */
  lemma MarkersRead(hashed: seq<byte>, md5sum: bool, md5: seq<byte> -> Digest)
    ensures Interpret(Md5Record(hashed, md5), hashed, md5sum, md5) == (if md5sum then Checked else Bad)
    ensures Interpret(Erased(RECORD), hashed, md5sum, md5) == End
  {
    assert Md5Record(hashed, md5)[..2][0] == Md5Record(hashed, md5)[0] == 0xEB;
    assert MAGIC_BYTES[0] == 0xAA;
  }

  lemma ParseOne(b: seq<byte>, o: nat, data: seq<byte>, hashed: seq<byte>, md5sum: bool, md5: seq<byte> -> Digest)
    requires |data| == RECORD && Holds(b, o, data)
    ensures Parse(b, o, hashed, md5sum, md5) ==
            match Interpret(data, hashed, md5sum, md5)
            case Bad => None
            case End => Some([])
            case Checked => Parse(b, o + RECORD, hashed, md5sum, md5)
            case Partition(e) => Prepend([e], Parse(b, o + RECORD, hashed + data, md5sum, md5))
  {
  }

  lemma RecordInFile(b: seq<byte>, t: seq<Entry>, i: nat)
    requires AllInRange(t) && i < |t| && Holds(b, 0, Records(t))
    ensures AllInRange(t[..i]) && AllInRange(t[..i + 1]) && t[i].InRange()
    ensures Records(t[..i + 1]) == Records(t[..i]) + EntryToBinary(t[i])
    ensures Holds(b, RECORD * i, EntryToBinary(t[i])) && RECORD * i + RECORD <= |b|
  {
    hide Records, AllInRange, EntryToBinary;
    RecordAt(t, i);
    HoldsWithin(b, Records(t), RECORD * i, EntryToBinary(t[i]));
  }

  lemma ParseNext(b: seq<byte>, t: seq<Entry>, i: nat, md5sum: bool, md5: seq<byte> -> Digest)
    requires AllInRange(t) && i < |t| && Holds(b, 0, Records(t))
    ensures AllInRange(t[..i]) && AllInRange(t[..i + 1]) && RECORD * i + RECORD <= |b|
    ensures Parse(b, RECORD * i, Records(t[..i]), md5sum, md5)
         == Prepend([Stored(t[i])], Parse(b, RECORD * i + RECORD, Records(t[..i + 1]), md5sum, md5))
  {
    hide *;
    RecordInFile(b, t, i);
    EntryReads(t[i], Records(t[..i]), md5sum, md5);
    ParseOne(b, RECORD * i, EntryToBinary(t[i]), Records(t[..i]), md5sum, md5);
  }

  lemma {:induction false} ParseRecords(b: seq<byte>, t: seq<Entry>, i: nat, md5sum: bool, md5: seq<byte> -> Digest)
    requires AllInRange(t) && i <= |t| && Holds(b, 0, Records(t))
    ensures Parse(b, RECORD * i, Records(t[..i]), md5sum, md5)
         == Prepend(AllStored(t[i..]), Parse(b, |Records(t)|, Records(t), md5sum, md5))
    decreases |t| - i
  {
    hide Parse, Prepend, AllInRange, Stored, Records;
    var rest := Parse(b, |Records(t)|, Records(t), md5sum, md5);
    hide Holds;
    if i == |t| {
      assert t[..i] == t && AllStored(t[i..]) == [];
      PrependTwice([], [], rest);
    } else {
      ParseNext(b, t, i, md5sum, md5);
      ParseRecords(b, t, i + 1, md5sum, md5);
      AllStoredFrom(t, i);
      hide *;
      PrependTwice([Stored(t[i])], AllStored(t[i + 1..]), rest);
    }
  }

  lemma PaddedLayout(records: seq<byte>, mark: seq<byte>, free: nat)
    requires free >= RECORD
    ensures var b := (records + mark) + Erased(free);
            Holds(b, 0, records) && Holds(b, |records|, mark) && Holds(b, |records| + |mark|, Erased(RECORD))
  {
  }

  lemma TableBytes(t: seq<Entry>, md5sum: bool, md5: seq<byte> -> Digest) returns (free: nat)
    requires ToBinary(t, md5sum, md5).Some?
    ensures AllInRange(t) && free >= RECORD
    ensures |Records(t) + Checksum(Records(t), md5sum, md5)| + free == MAX_PARTITION_LENGTH
    ensures ToBinary(t, md5sum, md5).value == (Records(t) + Checksum(Records(t), md5sum, md5)) + Erased(free)
  {
    hide Records, Checksum, AllInRange, Erased;
    free := MAX_PARTITION_LENGTH - |Records(t) + Checksum(Records(t), md5sum, md5)|;
    assert free % RECORD == 0 && free > 0;
  }

  /** Where the records, the checksum and the first end marker stand. */
  lemma TableLayout(t: seq<Entry>, md5sum: bool, md5: seq<byte> -> Digest)
    requires ToBinary(t, md5sum, md5).Some?
    ensures AllInRange(t) && |ToBinary(t, md5sum, md5).value| == MAX_PARTITION_LENGTH
    ensures Holds(ToBinary(t, md5sum, md5).value, 0, Records(t))
    ensures Holds(ToBinary(t, md5sum, md5).value, |Records(t)|, Checksum(Records(t), md5sum, md5))
    ensures Holds(ToBinary(t, md5sum, md5).value, |Records(t)| + (if md5sum then RECORD else 0), Erased(RECORD))
  {
    hide *;
    var free := TableBytes(t, md5sum, md5);
    PaddedLayout(Records(t), Checksum(Records(t), md5sum, md5), free);
  }

  // ---- What the reader accepts ----

  /** The bytes that are hashed for a checksum in front of record i: the earlier records, but
      for checksums. */
  function HashedTo(b: seq<byte>, i: nat, md5sum: bool): seq<byte>
    requires 32 * i <= |b|
  {
    if i == 0 then []
    else HashedTo(b, i - 1, md5sum) + if md5sum && IsMark(b, i - 1) then [] else b[32 * i - 32..32 * i]
  }

  predicate IsMark(b: seq<byte>, i: nat)
    requires 32 * i + 32 <= |b|
  {
    b[32 * i] == b[32 * i + 1] == 0xEB
  }

  /** A partition, or the right checksum. */
  predicate Readable(b: seq<byte>, i: nat, md5sum: bool, md5: seq<byte> -> Digest)
    requires 32 * i + 32 <= |b|
  {
    if md5sum && IsMark(b, i) then b[32 * i + 16..32 * i + 32] == md5(HashedTo(b, i, md5sum))
    else b[32 * i] == 0xAA && b[32 * i + 1] == 0x50
  }

  predicate EndsAt(b: seq<byte>, n: nat) {
    32 * n + 32 <= |b| && forall k :: 32 * n <= k < 32 * n + 32 ==> b[k] == 0xFF
  }

  /** The partitions among the records i to n. */
  function EntriesIn(b: seq<byte>, i: nat, n: nat, md5sum: bool, md5: seq<byte> -> Digest): seq<Entry>
    requires i <= n && 32 * n <= |b| && forall k :: i <= k < n ==> Readable(b, k, md5sum, md5)
    decreases n - i
  {
    if i == n then []
    else
      assert Readable(b, i, md5sum, md5);
      EntriesAt(b, i, md5sum, md5) + EntriesIn(b, i + 1, n, md5sum, md5)
  }

  function EntriesAt(b: seq<byte>, i: nat, md5sum: bool, md5: seq<byte> -> Digest): seq<Entry>
    requires 32 * i + 32 <= |b| && Readable(b, i, md5sum, md5)
  {
    if md5sum && IsMark(b, i) then [] else [EntryAt(b, i)]
  }

  function EntryAt(b: seq<byte>, i: nat): (e: Entry)
    requires 32 * i + 32 <= |b| && b[32 * i] == 0xAA && b[32 * i + 1] == 0x50
    ensures EntryFromBinary(b[32 * i..32 * i + 32]) == Some(e)
  {
    var r := b[32 * i..32 * i + 32];
    assert r[..2] == MAGIC_BYTES;
    EntryFromBinary(r).value
  }

  lemma ErasedAt(b: seq<byte>, i: nat)
    requires 32 * i + 32 <= |b|
    ensures b[32 * i..32 * i + 32] == Erased(32) <==> EndsAt(b, i)
  {
    var data := b[32 * i..32 * i + 32];
    assert forall k :: 32 * i <= k < 32 * i + 32 ==> b[k] == data[k - 32 * i];
  }

  lemma InterpretAt(b: seq<byte>, i: nat, md5sum: bool, md5: seq<byte> -> Digest)
    requires 32 * i + 32 <= |b|
    ensures var m := Interpret(b[32 * i..32 * i + 32], HashedTo(b, i, md5sum), md5sum, md5);
            && (m == End <==> EndsAt(b, i))
            && (m == Bad <==> !EndsAt(b, i) && !Readable(b, i, md5sum, md5))
            && (m == Checked <==> md5sum && IsMark(b, i) && Readable(b, i, md5sum, md5))
            && (m.Partition? ==> Readable(b, i, md5sum, md5) && !(md5sum && IsMark(b, i)) && m.entry == EntryAt(b, i))
  {
    var data := b[32 * i..32 * i + 32];
    assert data[0] == b[32 * i] && data[1] == b[32 * i + 1];
    assert data[16..] == b[32 * i + 16..32 * i + 32];
    ErasedAt(b, i);
    assert data[..2] == MD5_MAGIC <==> IsMark(b, i);
    assert data[..2] == MAGIC_BYTES <==> data[0] == 0xAA && data[1] == 0x50;
    hide HashedTo, CutAtNul, WordOf;
  }

  lemma NextHashed(b: seq<byte>, i: nat, md5sum: bool)
    requires 32 * i + 32 <= |b|
    ensures HashedTo(b, i + 1, md5sum) ==
            HashedTo(b, i, md5sum) + if md5sum && IsMark(b, i) then [] else b[32 * i..32 * i + 32]
  {
  }

  lemma ParseStep(b: seq<byte>, i: nat, md5sum: bool, md5: seq<byte> -> Digest)
    requires 32 * i + 32 <= |b|
    ensures Parse(b, 32 * i, HashedTo(b, i, md5sum), md5sum, md5) ==
            if EndsAt(b, i) then Some([])
            else if !Readable(b, i, md5sum, md5) then None
            else Prepend(EntriesAt(b, i, md5sum, md5), Parse(b, 32 * (i + 1), HashedTo(b, i + 1, md5sum), md5sum, md5))
  {
    hide Interpret, EndsAt, HashedTo, EntryAt, Prepend, Parse, Readable, IsMark;
    PrependTwice([], [], Parse(b, 32 * (i + 1), HashedTo(b, i + 1, md5sum), md5sum, md5));
    InterpretAt(b, i, md5sum, md5);
    NextHashed(b, i, md5sum);
    assert HashedTo(b, i, md5sum) + [] == HashedTo(b, i, md5sum);
    ParseOne(b, 32 * i, b[32 * i..32 * i + 32], HashedTo(b, i, md5sum), md5sum, md5);
  }

  lemma {:induction false} ParseFrom(b: seq<byte>, i: nat, n: nat, md5sum: bool, md5: seq<byte> -> Digest)
    requires i <= n && EndsAt(b, n) && forall k :: i <= k < n ==> Readable(b, k, md5sum, md5) && !EndsAt(b, k)
    ensures Parse(b, 32 * i, HashedTo(b, i, md5sum), md5sum, md5) == Some(EntriesIn(b, i, n, md5sum, md5))
    decreases n - i
  {
    hide Readable, IsMark, EndsAt, Parse, HashedTo, EntriesAt, EntriesIn, Prepend;
    EndInside(b, n, md5sum, md5);
    ParseStep(b, i, md5sum, md5);
    if i < n {
      EntriesStep(b, i, n, md5sum, md5);
      ParseFrom(b, i + 1, n, md5sum, md5);
    }
  }

  lemma EndInside(b: seq<byte>, n: nat, md5sum: bool, md5: seq<byte> -> Digest)
    requires EndsAt(b, n)
    ensures 32 * n + 32 <= |b| && EntriesIn(b, n, n, md5sum, md5) == []
  {
  }

  lemma ParseInside(b: seq<byte>, o: nat, hashed: seq<byte>, md5sum: bool, md5: seq<byte> -> Digest)
    requires o <= |b| && Parse(b, o, hashed, md5sum, md5).Some?
    ensures o + 32 <= |b|
  {
  }

  lemma EntriesStep(b: seq<byte>, i: nat, n: nat, md5sum: bool, md5: seq<byte> -> Digest)
    requires i < n && 32 * n <= |b| && forall k :: i <= k < n ==> Readable(b, k, md5sum, md5)
    ensures Readable(b, i, md5sum, md5)
    ensures Prepend(EntriesAt(b, i, md5sum, md5), Some(EntriesIn(b, i + 1, n, md5sum, md5)))
         == Some(EntriesIn(b, i, n, md5sum, md5))
  {
    assert Readable(b, i, md5sum, md5);
  }

  lemma {:induction false} ParseEnds(b: seq<byte>, i: nat, md5sum: bool, md5: seq<byte> -> Digest) returns (n: nat)
    requires 32 * i <= |b| && Parse(b, 32 * i, HashedTo(b, i, md5sum), md5sum, md5).Some?
    ensures i <= n && EndsAt(b, n) && forall k :: i <= k < n ==> Readable(b, k, md5sum, md5) && !EndsAt(b, k)
    decreases |b| - 32 * i
  {
    hide Readable, IsMark, EndsAt, Parse, HashedTo, EntriesAt;
    ParseInside(b, 32 * i, HashedTo(b, i, md5sum), md5sum, md5);
    ParseStep(b, i, md5sum, md5);
    n := i;
    if !EndsAt(b, i) {
      n := ParseEnds(b, i + 1, md5sum, md5);
    }
  }

  /** The reader accepts a table iff it has an end marker, and in front of it there are only
      partitions and right checksums. */
  lemma ParseExactly(b: seq<byte>, md5sum: bool, md5: seq<byte> -> Digest)
    ensures Parse(b, 0, [], md5sum, md5).Some? <==>
            exists n :: 0 <= n && EndsAt(b, n) && forall k :: 0 <= k < n ==> Readable(b, k, md5sum, md5)
    ensures forall n :: 0 <= n && EndsAt(b, n) && (forall k :: 0 <= k < n ==> Readable(b, k, md5sum, md5) && !EndsAt(b, k)) ==>
            Parse(b, 0, [], md5sum, md5) == Some(EntriesIn(b, 0, n, md5sum, md5))
  {
    hide Parse, EntriesIn;
    assert HashedTo(b, 0, md5sum) == [];
    forall n: nat | EndsAt(b, n) && forall k :: 0 <= k < n ==> Readable(b, k, md5sum, md5) && !EndsAt(b, k)
      ensures Parse(b, 0, [], md5sum, md5) == Some(EntriesIn(b, 0, n, md5sum, md5))
    {
      ParseFrom(b, 0, n, md5sum, md5);
    }
    if Parse(b, 0, [], md5sum, md5).Some? {
      var n := ParseEnds(b, 0, md5sum, md5);
    }
    if n: nat :| EndsAt(b, n) && forall k :: 0 <= k < n ==> Readable(b, k, md5sum, md5) {
      forall k | 0 <= k < n ensures !EndsAt(b, k) || (md5sum && IsMark(b, k)) {
        assert Readable(b, k, md5sum, md5);
      }
      ParseFrom(b, 0, n, md5sum, md5);
    }
  }

  /** Reading back what was written gives the same table, with the names as far as they can
      be stored, for either setting and whatever MD5 may be. */
  lemma RoundTrip(t: seq<Entry>, md5sum: bool, md5: seq<byte> -> Digest)
    requires ToBinary(t, md5sum, md5).Some?
    ensures Parse(ToBinary(t, md5sum, md5).value, 0, [], md5sum, md5) == Some(AllStored(t))
  {
    var b, records := ToBinary(t, md5sum, md5).value, Records(t);
    TableLayout(t, md5sum, md5);
    assert Records(t[..0]) == [] && t[0..] == t;
    hide *;
    ParseRecords(b, t, 0, md5sum, md5);
    ParseEnd(b, records, md5sum, md5);
    PrependTwice(AllStored(t), [], None);
  }

  lemma ParseEnd(b: seq<byte>, records: seq<byte>, md5sum: bool, md5: seq<byte> -> Digest)
    requires Holds(b, |records|, Checksum(records, md5sum, md5))
    requires Holds(b, |records| + (if md5sum then RECORD else 0), Erased(RECORD))
    ensures |records| <= |b| && Parse(b, |records|, records, md5sum, md5) == Some([])
  {
    hide Interpret, Md5Record, Erased, Parse;
    MarkersRead(records, md5sum, md5);
    if md5sum {
      ParseOne(b, |records|, Md5Record(records, md5), records, md5sum, md5);
      ParseOne(b, |records| + RECORD, Erased(RECORD), records, md5sum, md5);
    } else {
      ParseOne(b, |records|, Erased(RECORD), records, md5sum, md5);
    }
  }

  /** The table comes back unchanged iff every name fits. */
  lemma {:induction false} RoundTripExact(t: seq<Entry>)
    ensures AllStored(t) == t <==> forall e <- t :: |e.name| <= NAME_LENGTH && 0 !in e.name
  {
    if t != [] {
      NameSurvives(t[0].name);
      RoundTripExact(t[1..]);
      assert t == [t[0]] + t[1..];
    }
  }
}
