/** 32-bit words in files, least significant byte first. */
module LittleEndian {
  import opened Arithmetic
  import opened Sequences

  function Word(n: nat): (w: seq<byte>)
    ensures |w| == 4
  {
    [n % 256, n / 256 % 256, n / 65536 % 256, n / 16777216 % 256]
  }

  /** The word n stands at position pos. */
  predicate Stored(f: seq<byte>, pos: nat, n: nat) {
    pos + 4 <= |f|
    && n == f[pos] as nat + 256 * f[pos + 1] as nat + 65536 * f[pos + 2] as nat + 16777216 * f[pos + 3] as nat
  }

  lemma WordStored(f: seq<byte>, pos: nat, n: nat)
    requires n < TWO32 && Holds(f, pos, Word(n))
    ensures Stored(f, pos, n)
  {
    WordRoundTrip(n);
    var w := f[pos..pos + 4];
    assert w[0] == f[pos] && w[1] == f[pos + 1] && w[2] == f[pos + 2] && w[3] == f[pos + 3];
  }

  function WordOf(w: seq<byte>): nat
    requires |w| == 4
  {
    w[0] as nat + 256 * w[1] as nat + 65536 * w[2] as nat + 16777216 * w[3] as nat
  }

  lemma WordRoundTrip(n: nat)
    requires n < TWO32
    ensures WordOf(Word(n)) == n
  {
    DivMod(n, 256);
    DivMod(n / 256, 256);
    DivMod(n / 65536, 256);
    assert n / 256 / 256 == n / 65536 && n / 65536 / 256 == n / 16777216;
  }
}
