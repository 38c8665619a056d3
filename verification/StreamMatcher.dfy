/** Searching a byte stream for the first of several targets, reading every byte once. */
module StreamMatcher {
  import opened Sequences
  import opened Options

  // ---- What is searched for ----

  /** The first k bytes of the target are the last k bytes of s. */
  predicate Borders(s: seq<byte>, target: seq<byte>, k: nat) {
    k <= |target| && k <= |s| && s[|s| - k..] == target[..k]
  }

  /** An occurrence of the target ends at the end of s. */
  predicate Matches(s: seq<byte>, target: seq<byte>) {
    Borders(s, target, |target|)
  }

  /** k is the length of the longest prefix of the target that ends s. */
  predicate IsLongest(s: seq<byte>, target: seq<byte>, k: nat) {
    && Borders(s, target, k)
    && forall j :: k < j <= |target| ==> !Borders(s, target, j)
  }

  lemma BordersStep(s: seq<byte>, target: seq<byte>, c: byte, k: nat)
    requires k < |target|
    ensures Borders(s + [c], target, k + 1) <==> Borders(s, target, k) && target[k] == c
  {
    if k <= |s| {
      var t := s + [c];
      assert t[|t| - (k + 1)..] == s[|s| - k..] + [c];
      assert target[..k + 1] == target[..k] + [target[k]];
      if t[|t| - (k + 1)..] == target[..k + 1] {
        assert s[|s| - k..] == t[|t| - (k + 1)..][..k] == target[..k + 1][..k] == target[..k];
        assert c == t[|t| - (k + 1)..][k] == target[..k + 1][k];
      }
    }
  }

  /** Inside a match of length n, a shorter prefix ends the stream iff it is a border of the
      matched part: the stream itself need not be looked at again. */
  lemma BorderOfBorder(s: seq<byte>, target: seq<byte>, n: nat, j: nat)
    requires Borders(s, target, n) && j <= n
    ensures Borders(s, target, j) <==> target[..j] == target[n - j..n]
  {
  }

  /** After a byte that continues the longest match. */
  lemma LongestGrows(s: seq<byte>, target: seq<byte>, c: byte, k: nat)
    requires IsLongest(s, target, k) && k < |target| && target[k] == c
    ensures IsLongest(s + [c], target, k + 1)
  {
    BordersStep(s, target, c, k);
    forall j | k + 1 < j <= |target| ensures !Borders(s + [c], target, j) {
      BordersStep(s, target, c, j - 1);
    }
  }

  /** After any other byte: only shorter borders can be continued. */
  lemma LongestShrinks(s: seq<byte>, target: seq<byte>, c: byte, k: nat)
    requires IsLongest(s, target, k) && k < |target| && target[k] != c
    ensures forall j :: k < j <= |target| ==> !Borders(s + [c], target, j)
  {
    forall j | k < j <= |target| ensures !Borders(s + [c], target, j) {
      BordersStep(s, target, c, j - 1);
    }
  }

  class Target {
    const str: seq<byte>
    var index: nat

    constructor (str: seq<byte>)
      ensures this.str == str && index == 0
    {
      this.str, index := str, 0;
    }

    /** The index is exact for the bytes s read so far, and they do not end with the target. */
    ghost predicate Tracks(s: seq<byte>)
      reads this
    {
      IsLongest(s, str, index) && index < |str|
    }

    /** Compares the first j bytes of the target with the j bytes that start diff later. */
    method Overlaps(j: nat, diff: nat) returns (r: bool)
      requires j + diff <= |str|
      ensures r <==> str[..j] == str[diff..diff + j]
    {
      var i := 0;
      while i < j && str[i] == str[i + diff]
        invariant 0 <= i <= j
        invariant str[..i] == str[diff..diff + i]
      {
        assert str[..i + 1] == str[..i] + [str[i]];
        assert str[diff..diff + (i + 1)] == str[diff..diff + i] + [str[i + diff]];
        i := i + 1;
      }
      if i < j {
        assert str[..j][i] != str[diff..diff + j][i];
      }
      r := i == j;
    }

    /** The walk back after a byte that does not continue the match. */
    method WalkBack(c: byte, ghost s: seq<byte>)
      requires Tracks(s) && index > 0 && str[index] != c
      modifies this
      ensures Tracks(s + [c])
    {
      var origIndex := index;
      LongestShrinks(s, str, c, origIndex);
      var done := false;
      while !done
        invariant !done ==> 0 < index <= origIndex < |str|
        invariant !done ==> forall j :: index < j <= |str| ==> !Borders(s + [c], str, j)
        invariant done ==> Tracks(s + [c])
        decreases !done, index
      {
        index := index - 1;
        BordersStep(s, str, c, index);
        BorderOfBorder(s, str, origIndex, index);
        if c == str[index] {
          if index == 0 {
            index := 1;
            done := true;
          } else {
            var diff := origIndex - index;
            var same := Overlaps(index, diff);
            if same {
              index := index + 1;
              done := true;
            }
          }
        }
        if !done && index == 0 {
          done := true;
        }
      }
    }

    /** One byte of the stream; true when it completes the target. */
    method Feed(c: byte, ghost s: seq<byte>) returns (found: bool)
      requires Tracks(s)
      modifies this
      ensures found <==> Matches(s + [c], str)
      ensures !found ==> Tracks(s + [c])
    {
      found := false;
      if c == str[index] {
        LongestGrows(s, str, c, index);
        index := index + 1;
        found := index == |str|;
      } else {
        LongestShrinks(s, str, c, index);
        if index > 0 {
          WalkBack(c, s);
        }
      }
    }
  }

  // ---- Several targets at once ----

  /** An occurrence of target j ends after n bytes of the stream. */
  predicate EndsAt(input: seq<byte>, targets: seq<seq<byte>>, j: nat, n: nat) {
    n <= |input| && j < |targets| && Matches(input[..n], targets[j])
  }

  /** Nothing ends within the first n bytes. */
  predicate NoneBefore(input: seq<byte>, targets: seq<seq<byte>>, n: nat) {
    forall m, j :: 0 <= m < n && 0 <= j < |targets| ==> !EndsAt(input, targets, j, m)
  }

  /** Target r is the one that ends first, after n bytes; of several ending there it has the
      lowest index. An empty target ends after 0 bytes. */
  predicate FirstHit(input: seq<byte>, targets: seq<seq<byte>>, n: nat, r: nat) {
    && EndsAt(input, targets, r, n)
    && NoneBefore(input, targets, n)
    && forall j :: 0 <= j < r ==> !EndsAt(input, targets, j, n)
  }

  function Strings(targets: seq<Target>): (ss: seq<seq<byte>>)
    ensures |ss| == |targets|
    ensures forall i :: 0 <= i < |ss| ==> ss[i] == targets[i].str
  {
    seq(|targets|, i requires 0 <= i < |targets| => targets[i].str)
  }

  /** The first occurrence of the target ends after n bytes, and no occurrence of the
      terminator ends earlier. */
  predicate TargetFirst(input: seq<byte>, target: seq<byte>, terminator: Option<seq<byte>>, n: nat)
    requires n <= |input|
  {
    && Matches(input[..n], target)
    && forall m :: 0 <= m < n ==>
         !Matches(input[..m], target) && (terminator.Some? ==> !Matches(input[..m], terminator.value))
  }

  predicate Occurs(input: seq<byte>, terminator: Option<seq<byte>>) {
    terminator.Some? && exists n :: 0 <= n <= |input| && Matches(input[..n], terminator.value)
  }

  /** The first occurrence of the terminator ends after n bytes, and the target has not been seen
      up to there. */
  predicate TerminatorFirst(input: seq<byte>, target: seq<byte>, terminator: Option<seq<byte>>, n: nat)
    requires n <= |input|
  {
    && terminator.Some? && Matches(input[..n], terminator.value)
    && (forall m :: 0 <= m < n ==> !Matches(input[..m], terminator.value))
    && forall m :: 0 <= m <= n ==> !Matches(input[..m], target)
  }

  /** A stream that delivers its input and then times out. */
  class Stream {
    const input: seq<byte>
    var pos: nat

    constructor (input: seq<byte>)
      ensures this.input == input && pos == 0
    {
      this.input, pos := input, 0;
    }

    ghost predicate Valid()
      reads this
    {
      pos <= |input|
    }

    ghost function Rest(): seq<byte>
      requires Valid()
      reads this
    {
      input[pos..]
    }

    /** The next byte, or -1 on a timeout. */
    method TimedRead() returns (c: int)
      requires Valid()
      modifies this
      ensures Valid()
      ensures if old(pos) < |input| then pos == old(pos) + 1 && c == input[old(pos)] else c == -1 && pos == old(pos)
    {
      if pos < |input| {
        c := input[pos];
        pos := pos + 1;
      } else {
        c := -1;
      }
    }

    /** Hands one byte to the targets in turn, up to the first that is completed. */
    method FeedTargets(targets: seq<Target>, c: byte, ghost s: seq<byte>) returns (r: int)
      requires forall i, j :: 0 <= i < j < |targets| ==> targets[i] != targets[j]
      requires forall i :: 0 <= i < |targets| ==> targets[i].Tracks(s)
      modifies targets
      ensures -1 <= r < |targets|
      ensures forall j :: 0 <= j < (if r >= 0 then r else |targets|) ==> !Matches(s + [c], targets[j].str)
      ensures if r >= 0 then Matches(s + [c], targets[r].str)
              else forall i :: 0 <= i < |targets| ==> targets[i].Tracks(s + [c])
    {
      hide Matches;
      var i := 0;
      while i < |targets|
        invariant 0 <= i <= |targets|
        invariant forall j :: 0 <= j < i ==> targets[j].Tracks(s + [c]) && !Matches(s + [c], targets[j].str)
        invariant forall j :: i <= j < |targets| ==> targets[j].Tracks(s)
      {
        var found := targets[i].Feed(c, s);
        if found {
          return i;
        }
        i := i + 1;
      }
      return -1;
    }

    /** Index of the first empty target, or -1. */
    method FirstEmpty(targets: seq<Target>) returns (r: int)
      ensures -1 <= r < |targets|
      ensures r >= 0 ==> targets[r].str == []
      ensures forall j :: 0 <= j < (if r >= 0 then r else |targets|) ==> targets[j].str != []
    {
      var i := 0;
      while i < |targets|
        invariant 0 <= i <= |targets|
        invariant forall j :: 0 <= j < i ==> targets[j].str != []
      {
        if |targets[i].str| == 0 {
          return i;
        }
        i := i + 1;
      }
      return -1;
    }

    /** Reads until one of the targets has been seen, or until the stream times out. */
    method FindMulti(targets: seq<Target>) returns (r: int)
      requires Valid()
      requires forall i, j :: 0 <= i < j < |targets| ==> targets[i] != targets[j]
      requires forall i :: 0 <= i < |targets| ==> targets[i].index == 0
      modifies this, targets
      ensures Valid() && old(pos) <= pos && -1 <= r < |targets|
      ensures if r >= 0 then FirstHit(old(Rest()), Strings(targets), pos - old(pos), r)
              else pos == |input| && NoneBefore(old(Rest()), Strings(targets), |input| - old(pos) + 1)
    {
      hide EndsAt, Matches, IsLongest;
      ghost var rest, ss := Rest(), Strings(targets);
      r := FirstEmpty(targets);
      StartOfStream(rest, ss);
      if r >= 0 {
        return;
      }
      assert forall i :: 0 <= i < |targets| ==> targets[i].Tracks(rest[..0]) by {
        assert forall i :: 0 <= i < |targets| ==> IsLongest(rest[..0], ss[i], 0);
      }
      while true
        invariant Valid() && old(pos) <= pos
        invariant forall i :: 0 <= i < |targets| ==> targets[i].Tracks(rest[..pos - old(pos)])
        invariant NoneBefore(rest, ss, pos - old(pos) + 1)
        decreases |input| - pos
      {
        ghost var n := pos - old(pos);
        var c := TimedRead();
        if c < 0 {
          return -1;
        }
        assert rest[..n + 1] == rest[..n] + [c];
        r := FeedTargets(targets, c, rest[..n]);
        NextByte(rest, ss, n, r);
        if r >= 0 {
          return;
        }
      }
    }

    /** True iff the target is seen, and no terminator before it. */
    method FindUntil(target: seq<byte>, terminator: Option<seq<byte>>) returns (found: bool)
      requires Valid()
      modifies this
      ensures Valid() && old(pos) <= pos
      ensures found <==> exists n :: 0 <= n <= |old(Rest())| && TargetFirst(old(Rest()), target, terminator, n)
      ensures found ==> TargetFirst(old(Rest()), target, terminator, pos - old(pos))
      ensures !found ==> if Occurs(old(Rest()), terminator) then TerminatorFirst(old(Rest()), target, terminator, pos - old(pos))
                         else pos == |input|
    {
      ghost var rest := Rest();
      var t := new Target(target);
      var r;
      if terminator.None? {
        r := FindMulti([t]);
        assert Strings([t]) == [target];
      } else {
        var u := new Target(terminator.value);
        r := FindMulti([t, u]);
        assert Strings([t, u]) == [target, terminator.value];
      }
      ghost var ss := if terminator.None? then [target] else [target, terminator.value];
      TargetFirstIffHit(rest, target, terminator, ss, pos - old(pos), r);
      found := r == 0;
    }

    method Find(target: seq<byte>) returns (found: bool)
      requires Valid()
      modifies this
      ensures Valid() && old(pos) <= pos
      ensures found <==> exists n :: 0 <= n <= |old(Rest())| && Matches(old(Rest())[..n], target)
      ensures if found then TargetFirst(old(Rest()), target, None, pos - old(pos)) else pos == |input|
    {
      found := FindUntil(target, None);
      assert forall n :: 0 <= n <= |old(Rest())| ==>
        (TargetFirst(old(Rest()), target, None, n) ==> Matches(old(Rest())[..n], target));
      if n :| 0 <= n <= |old(Rest())| && Matches(old(Rest())[..n], target) {
        FirstOccurrence(old(Rest()), target, n);
      }
    }
  }

  lemma {:induction false} FirstOccurrence(input: seq<byte>, target: seq<byte>, n: nat)
    requires n <= |input| && Matches(input[..n], target)
    ensures exists m :: 0 <= m <= n && TargetFirst(input, target, None, m)
  {
    hide Matches;
    if m :| 0 <= m < n && Matches(input[..m], target) {
      FirstOccurrence(input, target, m);
    } else {
      assert TargetFirst(input, target, None, n);
    }
  }

  /** What a search for the target and, if there is one, the terminator says about both. */
  lemma TargetFirstIffHit(input: seq<byte>, target: seq<byte>, terminator: Option<seq<byte>>,
                          ss: seq<seq<byte>>, n: nat, r: int)
    requires ss == if terminator.None? then [target] else [target, terminator.value]
    requires -1 <= r < |ss|
    requires if r >= 0 then FirstHit(input, ss, n, r) else NoneBefore(input, ss, |input| + 1)
    ensures r == 0 ==> n <= |input| && TargetFirst(input, target, terminator, n)
    ensures r != 0 ==> !exists m :: 0 <= m <= |input| && TargetFirst(input, target, terminator, m)
    ensures r == 1 ==> n <= |input| && TerminatorFirst(input, target, terminator, n)
    ensures r == 1 <==> r != 0 && Occurs(input, terminator)
  {
    hide Matches;
    assert forall m :: 0 <= m <= |input| ==> (EndsAt(input, ss, 0, m) <==> Matches(input[..m], target));
    if terminator.Some? {
      assert forall m :: 0 <= m <= |input| ==> (EndsAt(input, ss, 1, m) <==> Matches(input[..m], terminator.value));
    }
  }

  /** The specification leaves no choice: stream and targets determine the outcome. */
  lemma FirstHitIsUnique(input: seq<byte>, targets: seq<seq<byte>>, n: nat, r: nat, n': nat, r': nat)
    requires FirstHit(input, targets, n, r) && FirstHit(input, targets, n', r')
    ensures n == n' && r == r'
    ensures !NoneBefore(input, targets, |input| + 1)
  {
  }

  /** Before the first byte only an empty target has been seen. */
  lemma StartOfStream(input: seq<byte>, targets: seq<seq<byte>>)
    ensures forall j :: 0 <= j < |targets| ==> (EndsAt(input, targets, j, 0) <==> targets[j] == [])
    ensures forall j :: 0 <= j < |targets| ==> IsLongest(input[..0], targets[j], 0)
    ensures NoneBefore(input, targets, 0)
  {
  }

  /** One byte further. */
  lemma NextByte(input: seq<byte>, targets: seq<seq<byte>>, n: nat, r: int)
    requires n < |input| && -1 <= r < |targets| && NoneBefore(input, targets, n + 1)
    requires forall j :: 0 <= j < (if r >= 0 then r else |targets|) ==> !Matches(input[..n + 1], targets[j])
    requires r >= 0 ==> Matches(input[..n + 1], targets[r])
    ensures if r >= 0 then FirstHit(input, targets, n + 1, r) else NoneBefore(input, targets, n + 2)
  {
  }
}
