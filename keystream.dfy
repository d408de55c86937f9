/**
 * Keystream expansion of a key digest (`Encoder._generate_keystream`).
 *
 * Byte `i` of the stream XORs two digest bytes, taken at positions `7i` and
 * `3i` modulo the digest length, so the stream repeats with the digest's
 * length as period.
 */
module Keystream {

  import opened Bytes

  /** The first `n` keystream bytes, built by appending one byte per index. */
  function Expanded(h: seq<byte>, n: nat): (ks: seq<byte>)
    requires n == 0 || |h| > 0
    ensures |ks| == n
    ensures forall i :: 0 <= i < n ==> ks[i] == XorByte(h[(i * 7) % |h|], h[(i * 3) % |h|])
  {
    if n == 0 then [] else Expanded(h, n - 1) + [XorByte(h[((n - 1) * 7) % |h|], h[((n - 1) * 3) % |h|])]
  }

  /**
   * The loop of `_generate_keystream`: append to a growing buffer for
   * `i` in `0..n`. An empty digest is only harmless when nothing is asked for
   * (otherwise `% hash_len` divides by zero).
   */
  method Generate(h: seq<byte>, n: nat) returns (ks: seq<byte>)
    requires n == 0 || |h| > 0
    ensures ks == Expanded(h, n)
  {
    ks := [];
    var hashLen := |h|;
    for i := 0 to n
      invariant ks == Expanded(h, i)
    {
      ks := ks + [XorByte(h[(i * 7) % hashLen], h[(i * 3) % hashLen])];
    }
  }

  /** Adding a multiple of `m` does not change a remainder modulo `m`. */
  lemma ModAddMultiple(x: nat, q: nat, m: nat)
    requires m > 0
    ensures (q * m + x) % m == x % m
  {
    assert x == (x / m) * m + x % m;
    assert q * m + x == (q + x / m) * m + x % m;
    DivModUnique(q * m + x, m, q + x / m, x % m);
  }

  /** Byte `i` of the stream is the byte at `i mod |h|`. */
  lemma DependsOnResidue(h: seq<byte>, n: nat, i: nat)
    requires |h| > 0 && i < n
    ensures i % |h| < n
    ensures Expanded(h, n)[i] == Expanded(h, n)[i % |h|]
  {
    var m, q, r := |h|, i / |h|, i % |h|;
    assert i == q * m + r;
    assert i * 7 == (q * 7) * m + r * 7;
    assert i * 3 == (q * 3) * m + r * 3;
    ModAddMultiple(r * 7, q * 7, m);
    ModAddMultiple(r * 3, q * 3, m);
  }

  /** The stream is periodic with the digest length as period. */
  lemma Periodic(h: seq<byte>, n: nat, i: nat)
    requires |h| > 0 && i + |h| < n
    ensures Expanded(h, n)[i + |h|] == Expanded(h, n)[i]
  {
    DependsOnResidue(h, n, i);
    DependsOnResidue(h, n, i + |h|);
    ModAddMultiple(i, 1, |h|);
  }
}
