/** SLIP framing of the packets exchanged with the serial port: a packet stands between two
    END bytes, and END and ESC bytes inside it are escaped (RFC 1055, section PROTOCOL). */
module Slip {
  import opened Sequences
  import opened Options

  const END: byte := 0xc0
  const ESC: byte := 0xdb
  const ESC_END: byte := 0xdc
  const ESC_ESC: byte := 0xdd

  // ---- Writing ----

  /** All occurrences of one byte replaced. */
  function Replace(s: seq<byte>, b: byte, repl: seq<byte>): seq<byte> {
    if s == [] then [] else (if s[0] == b then repl else [s[0]]) + Replace(s[1..], b, repl)
  }

  function EscapeByte(b: byte): seq<byte> {
    if b == END then [ESC, ESC_END] else if b == ESC then [ESC, ESC_ESC] else [b]
  }

  function Escape(p: seq<byte>): seq<byte> {
    if p == [] then [] else EscapeByte(p[0]) + Escape(p[1..])
  }

  lemma {:induction false} ReplaceConcat(a: seq<byte>, c: seq<byte>, b: byte, repl: seq<byte>)
    ensures Replace(a + c, b, repl) == Replace(a, b, repl) + Replace(c, b, repl)
  {
    if a == [] {
      assert a + c == c;
    } else {
      assert (a + c)[1..] == a[1..] + c;
      ReplaceConcat(a[1..], c, b, repl);
      Assoc(if a[0] == b then repl else [a[0]], Replace(a[1..], b, repl), Replace(c, b, repl));
    }
  }

  /** The two replacements one after the other escape every byte once: the ESC bytes that
      the second one inserts are not escaped again. */
  lemma {:induction false} TwoReplacesEscape(p: seq<byte>)
    ensures Replace(Replace(p, ESC, [ESC, ESC_ESC]), END, [ESC, ESC_END]) == Escape(p)
  {
    if p != [] {
      var head := if p[0] == ESC then [ESC, ESC_ESC] else [p[0]];
      ReplaceConcat(head, Replace(p[1..], ESC, [ESC, ESC_ESC]), END, [ESC, ESC_END]);
      TwoReplacesEscape(p[1..]);
      HeadEscapes(p[0]);
    }
  }

  lemma HeadEscapes(b: byte)
    ensures Replace(if b == ESC then [ESC, ESC_ESC] else [b], END, [ESC, ESC_END]) == EscapeByte(b)
  {
    assert Replace([b], END, [ESC, ESC_END]) == (if b == END then [ESC, ESC_END] else [b]) + [];
    if b == ESC {
      assert [ESC, ESC_ESC][1..] == [ESC_ESC];
      assert Replace([ESC_ESC], END, [ESC, ESC_END]) == [ESC_ESC] + [];
    }
  }

  /** The END byte marks packet boundaries and nothing else. */
  lemma {:induction false} NoEndInside(p: seq<byte>)
    ensures END !in Escape(p)
  {
    if p != [] {
      NoEndInside(p[1..]);
    }
  }

  /** What stands for one more byte. */
  lemma {:induction false} EscapeAppend(p: seq<byte>, b: byte)
    ensures Escape(p + [b]) == Escape(p) + (if b == 0xc0 then [0xdb, 0xdc] else if b == 0xdb then [0xdb, 0xdd] else [b])
  {
    if p == [] {
      assert [] + [b] == [b];
    } else {
      assert (p + [b])[1..] == p[1..] + [b];
      EscapeAppend(p[1..], b);
    }
  }

  /** A packet stands between two bytes 0xc0. */
  lemma FrameIs(p: seq<byte>)
    ensures Frame(p) == [0xc0] + Escape(p) + [0xc0] && 0xc0 !in Escape(p)
  {
    TwoReplacesEscape(p);
    NoEndInside(p);
  }

  lemma {:induction false} FramesAppend(packets: seq<seq<byte>>, p: seq<byte>)
    ensures Frames(packets + [p]) == Frames(packets) + Frame(p)
  {
    if packets == [] {
      assert [] + [p] == [p];
    } else {
      assert (packets + [p])[1..] == packets[1..] + [p];
      FramesAppend(packets[1..], p);
      Assoc(Frame(packets[0]), Frames(packets[1..]), Frame(p));
    }
  }

  function Frame(packet: seq<byte>): (buf: seq<byte>)
  {
    [END] + Replace(Replace(packet, ESC, [ESC, ESC_ESC]), END, [ESC, ESC_END]) + [END]
  }

  function Frames(packets: seq<seq<byte>>): seq<byte> {
    if packets == [] then [] else Frame(packets[0]) + Frames(packets[1..])
  }

  // ---- Reading ----

  /** The reader between two bytes: the packet it is in, whether an ESC came last, what it
      has yielded, and whether it has raised an error. */
  datatype State = State(partial: Option<seq<byte>>, inEscape: bool, yielded: seq<seq<byte>>, failed: bool)

  const START := State(None, false, [], false)

  function Step(s: State, b: byte): State {
    if s.failed then s
    else if s.partial.None? then
      if b == END then s.(partial := Some([])) else s.(failed := true)
    else if s.inEscape then
      if b == ESC_END then s.(inEscape := false, partial := Some(s.partial.value + [END]))
      else if b == ESC_ESC then s.(inEscape := false, partial := Some(s.partial.value + [ESC]))
      else s.(inEscape := false, failed := true)
    else if b == ESC then s.(inEscape := true)
    else if b == END then s.(yielded := s.yielded + [s.partial.value], partial := None)
    else s.(partial := Some(s.partial.value + [b]))
  }

  function Run(s: State, bytes: seq<byte>): State {
    if bytes == [] then s else Step(Run(s, bytes[..|bytes| - 1]), bytes[|bytes| - 1])
  }

  lemma {:induction false} RunConcat(s: State, a: seq<byte>, b: seq<byte>)
    ensures Run(s, a + b) == Run(Run(s, a), b)
  {
    if b == [] {
      assert a + b == a;
    } else {
      assert (a + b)[..|a + b| - 1] == a + b[..|b| - 1];
      RunConcat(s, a, b[..|b| - 1]);
    }
  }

  lemma RunNone(s: State)
    ensures Run(s, []) == s
  {
  }

  lemma RunOne(s: State, b: byte)
    ensures Run(s, [b]) == Step(s, b)
  {
  }

  lemma RunTwo(s: State, b: byte, c: byte)
    ensures Run(s, [b, c]) == Step(Step(s, b), c)
  {
    assert [b, c][..1] == [b];
    RunOne(s, b);
  }

  /** Inside a packet, an escaped body is read back as the bytes it stands for. */
  lemma {:induction false} RunEscaped(s: State, p: seq<byte>)
    requires !s.failed && !s.inEscape && s.partial.Some?
    ensures Run(s, Escape(p)) == s.(partial := Some(s.partial.value + p))
    decreases |p|
  {
    hide Run;
    RunNone(s);
    if p == [] {
      assert s.partial.value + p == s.partial.value;
    } else {
      var next := s.(partial := Some(s.partial.value + [p[0]]));
      RunConcat(s, EscapeByte(p[0]), Escape(p[1..]));
      if p[0] == END {
        RunTwo(s, ESC, ESC_END);
      } else if p[0] == ESC {
        RunTwo(s, ESC, ESC_ESC);
      } else {
        RunOne(s, p[0]);
      }
      RunEscaped(next, p[1..]);
      assert s.partial.value + [p[0]] + p[1..] == s.partial.value + p;
    }
  }

  lemma RunFrame(s: State, p: seq<byte>)
    requires !s.failed && !s.inEscape && s.partial.None?
    ensures Run(s, Frame(p)) == s.(yielded := s.yielded + [p])
  {
    TwoReplacesEscape(p);
    RunConcat(s, [END] + Escape(p), [END]);
    RunConcat(s, [END], Escape(p));
    RunOne(s, END);
    var inside := s.(partial := Some([]));
    RunEscaped(inside, p);
    assert [] + p == p;
    RunOne(inside.(partial := Some(p)), END);
  }

  /** The packets that were written are the packets that are read. */
  lemma {:induction false} RoundTrip(s: State, packets: seq<seq<byte>>)
    requires !s.failed && !s.inEscape && s.partial.None?
    ensures Run(s, Frames(packets)) == s.(yielded := s.yielded + packets)
    decreases |packets|
  {
    hide Run, Step, Frame;
    RunNone(s);
    if packets == [] {
      assert s.yielded + packets == s.yielded;
    } else {
      RunConcat(s, Frame(packets[0]), Frames(packets[1..]));
      RunFrame(s, packets[0]);
      RoundTrip(s.(yielded := s.yielded + [packets[0]]), packets[1..]);
      assert s.yielded + [packets[0]] + packets[1..] == s.yielded + packets;
    }
  }

  // ---- What the reader accepts ----

  /** The bytes of a packet that is not complete yet. */
  function Begun(s: State): seq<byte> {
    if s.partial.None? then [] else [0xc0] + Escape(s.partial.value) + if s.inEscape then [0xdb] else []
  }

  /** As long as no error was raised, the reader has lost nothing: its state tells the bytes. */
  lemma {:induction false} NothingLost(bytes: seq<byte>)
    ensures var s := Run(START, bytes);
            && (s.partial.None? && !s.failed ==> !s.inEscape)
            && (!s.failed ==> bytes == Frames(s.yielded) + Begun(s))
  {
    if bytes != [] {
      var front, b := bytes[..|bytes| - 1], bytes[|bytes| - 1];
      NothingLost(front);
      assert bytes == front + [b];
      hide Run, Frames, Escape, Frame;
      if !Run(START, front).failed {
        OneMoreByte(Run(START, front), b);
      }
    }
  }

  lemma OneMoreByte(s: State, b: byte)
    requires !s.failed && (s.partial.None? ==> !s.inEscape)
    ensures var s' := Step(s, b);
            !s'.failed ==> Frames(s'.yielded) + Begun(s') == Frames(s.yielded) + Begun(s) + [b] && (s'.partial.None? ==> !s'.inEscape)
  {
    hide Escape, Frames, Frame, Begun;
    if s.partial.Some? && !s.inEscape && b == 0xc0 {
      PacketEnds(s, s.partial.value);
    } else if !Step(s, b).failed {
      BegunGrows(s, b);
      Assoc(Frames(s.yielded), Begun(s), [b]);
    }
  }

  lemma PacketEnds(s: State, p: seq<byte>)
    requires s.partial == Some(p) && !s.inEscape
    ensures Frames(s.yielded + [p]) == Frames(s.yielded) + Begun(s) + [0xc0]
    ensures Begun(Step(s, 0xc0)) == [] || s.failed
  {
    FramesAppend(s.yielded, p);
    FrameIs(p);
    hide Escape, Frames, Frame;
    assert Begun(s) == [0xc0] + Escape(p);
    Assoc(Frames(s.yielded), [0xc0] + Escape(p), [0xc0]);
  }

  lemma BegunGrows(s: State, b: byte)
    requires !s.failed && (s.partial.None? ==> !s.inEscape) && !Step(s, b).failed
    requires s.partial.Some? && !s.inEscape ==> b != 0xc0
    ensures Begun(Step(s, b)) == Begun(s) + [b] && Step(s, b).yielded == s.yielded && Step(s, b).partial.Some?
  {
    assert Escape([]) == [];
    hide Escape;
    if s.partial.Some? && (s.inEscape || b != 0xdb) {
      EscapeAppend(s.partial.value, if !s.inEscape then b else if b == 0xdc then 0xc0 else 0xdb);
    }
  }

  /** The reader raises no error iff the bytes are the beginning of some framed packets. */
  lemma FailsExactly(bytes: seq<byte>)
    ensures !Run(START, bytes).failed <==> exists packets :: bytes <= Frames(packets)
  {
    hide Run, Escape, Frame, Frames;
    if !Run(START, bytes).failed {
      var packets := Continued(bytes);
    }
    if packets :| bytes <= Frames(packets) {
      RoundTrip(START, packets);
      assert Frames(packets)[..|bytes|] == bytes;
      FailedStays(START, Frames(packets), |bytes|);
    }
  }

  lemma Continued(bytes: seq<byte>) returns (packets: seq<seq<byte>>)
    requires !Run(START, bytes).failed
    ensures bytes <= Frames(packets)
  {
    hide Run, Escape, Frame, Frames;
    var s := Run(START, bytes);
    NothingLost(bytes);
    if s.partial.None? {
      packets := s.yielded;
    } else {
      var p := if s.inEscape then s.partial.value + [0xdb] else s.partial.value;
      packets := s.yielded + [p];
      EscapeAppend(s.partial.value, 0xdb);
      FramesAppend(s.yielded, p);
      FrameIs(p);
    }
  }

  /** The reading side of the port. */
  class SlipReader {
    var partialPacket: Option<seq<byte>>
    var inEscape: bool
    var yielded: seq<seq<byte>>
    var failed: bool

    ghost function View(): State
      reads this
    {
      State(partialPacket, inEscape, yielded, failed)
    }

    constructor ()
      ensures View() == START
    {
      partialPacket, inEscape, yielded, failed := None, false, [], false;
    }

    method ReadByte(b: byte)
      requires !failed
      modifies this
      ensures View() == Step(old(View()), b)
    {
      if partialPacket.None? { // waiting for packet header
        if b == END {
          partialPacket := Some([]);
        } else {
          failed := true;
        }
      } else if inEscape {
        inEscape := false;
        if b == ESC_END {
          partialPacket := Some(partialPacket.value + [END]);
        } else if b == ESC_ESC {
          partialPacket := Some(partialPacket.value + [ESC]);
        } else {
          failed := true;
        }
      } else if b == ESC {
        inEscape := true;
      } else if b == END {
        yielded := yielded + [partialPacket.value];
        partialPacket := None;
      } else {
        partialPacket := Some(partialPacket.value + [b]);
      }
    }

    /** The bytes of one serial read. */
    method ReadChunk(bytes: seq<byte>)
      modifies this
      ensures View() == Run(old(View()), bytes)
    {
      var i := 0;
      while i < |bytes| && !failed
        invariant 0 <= i <= |bytes| && View() == Run(old(View()), bytes[..i])
      {
        assert bytes[..i + 1][..i] == bytes[..i];
        ReadByte(bytes[i]);
        i := i + 1;
      }
      FailedStays(old(View()), bytes, i);
      assert bytes[..|bytes|] == bytes;
    }

    /** A sequence of serial reads, up to the first error. */
    method ReadAll(chunks: seq<seq<byte>>)
      requires !failed
      modifies this
      ensures View() == RunReads(old(View()), chunks)
    {
      var i := 0;
      while i < |chunks|
        invariant 0 <= i <= |chunks| && View() == RunReads(old(View()), chunks[..i])
      {
        assert chunks[..i + 1][..i] == chunks[..i];
        if !failed {
          if chunks[i] == [] { // timed out waiting for a packet
            failed := true;
          } else {
            ReadChunk(chunks[i]);
          }
        }
        i := i + 1;
      }
      assert chunks[..|chunks|] == chunks;
    }

    /** However the bytes arrive, the reader yields exactly the packets that were written. */
    method Receive(packets: seq<seq<byte>>, chunks: seq<seq<byte>>)
      requires View() == START
      requires Flatten(chunks) == Frames(packets) && forall i :: 0 <= i < |chunks| ==> chunks[i] != []
      modifies this
      ensures yielded == packets && !failed && partialPacket == None
    {
      RoundTrip(START, packets);
      ReadsAreOneRun(START, chunks);
      ReadAll(chunks);
    }
  }

  function Flatten(chunks: seq<seq<byte>>): seq<byte> {
    if chunks == [] then [] else Flatten(chunks[..|chunks| - 1]) + chunks[|chunks| - 1]
  }

  /** An empty read is a timeout, which is an error as well. */
  function RunReads(s: State, chunks: seq<seq<byte>>): State {
    if chunks == [] then s
    else
      var r, last := RunReads(s, chunks[..|chunks| - 1]), chunks[|chunks| - 1];
      if r.failed then r else if last == [] then r.(failed := true) else Run(r, last)
  }

  /** Where the boundaries of the reads are makes no difference. */
  lemma {:induction false} ReadsAreOneRun(s: State, chunks: seq<seq<byte>>)
    requires forall i :: 0 <= i < |chunks| ==> chunks[i] != []
    ensures RunReads(s, chunks) == Run(s, Flatten(chunks))
  {
    if chunks != [] {
      var front, last := chunks[..|chunks| - 1], chunks[|chunks| - 1];
      ReadsAreOneRun(s, front);
      RunConcat(s, Flatten(front), last);
      FailedStays(Run(s, Flatten(front)), last, 0);
    }
  }

  lemma {:induction false} FailedStays(s: State, bytes: seq<byte>, i: nat)
    requires i <= |bytes|
    ensures Run(s, bytes[..i]).failed ==> Run(s, bytes) == Run(s, bytes[..i])
    decreases |bytes|
  {
    if i == |bytes| {
      assert bytes[..i] == bytes;
    } else {
      assert bytes[..|bytes| - 1][..i] == bytes[..i];
      FailedStays(s, bytes[..|bytes| - 1], i);
    }
  }

  lemma {:induction false} EmptyReadFails(s: State, chunks: seq<seq<byte>>)
    requires [] in chunks
    ensures RunReads(s, chunks).failed
  {
    var front, last := chunks[..|chunks| - 1], chunks[|chunks| - 1];
    assert chunks == front + [last];
    if last != [] {
      EmptyReadFails(s, front);
    }
  }

  /** A sequence of reads raises an error iff one of them times out, or their bytes are not the
      beginning of framed packets. */
  lemma ReadsFailExactly(chunks: seq<seq<byte>>)
    ensures RunReads(START, chunks).failed <==> [] in chunks || !exists packets :: Flatten(chunks) <= Frames(packets)
  {
    if [] in chunks {
      EmptyReadFails(START, chunks);
    } else {
      ReadsAreOneRun(START, chunks);
      FailsExactly(Flatten(chunks));
    }
  }
}
