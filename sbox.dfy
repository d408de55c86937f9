/**
 * Substitution tables (`Encoder._create_sboxes`).
 *
 * The table starts as the identity on 0..255 and is shuffled eight times in
 * place by the shuffle that `random.shuffle` performs (a Fisher-Yates pass
 * from the last position down to position 1). The generator behind it is a
 * parameter: `draw(seed, k, n)` stands for the `k`-th bounded draw
 * `randbelow(n)` made after `random.seed(seed)`; a value at or above `n` is
 * capped at `n - 1`, so every generator whose draws stay in range is one such
 * function. The inverse
 * table is then filled by `inv[sbox[i]] := i`.
 */
module SBox {

  import opened Bytes

  /** `struct.unpack('>I', ...)` yields an unsigned 32-bit integer. */
  type Seed = x: nat | x < 0x1_0000_0000

  /** The `k`-th draw below a bound `n` after seeding with a given seed. */
  type Draw = (Seed, nat, nat) -> nat

  /** Number of successive shuffles of the table. */
  const Passes: nat := 8

  /** `list(range(256))`. */
  function Identity(): (s: seq<byte>)
    ensures |s| == 256
  {
    seq(256, i requires 0 <= i < 256 => i as byte)
  }

  /** `s` is a rearrangement of the byte values 0..255: it holds each exactly once. */
  ghost predicate IsPermutation(s: seq<byte>)
  {
    |s| == 256 && forall v: byte :: multiset(s)[v] == 1
  }

  /** A draw below `i + 1` as it is; one that is not (`randbelow` never makes one) is capped at `i`. */
  function InRange(d: nat, i: nat): (j: nat)
    ensures j <= i && (d <= i ==> j == d)
  {
    if d <= i then d else i
  }

  /** `s[i], s[j] = s[j], s[i]`. */
  function Swap(s: seq<byte>, i: nat, j: nat): (r: seq<byte>)
    requires i < |s| && j < |s|
    ensures |r| == |s|
  {
    s[i := s[j]][j := s[i]]
  }

  /** Swapping two entries rearranges them. */
  lemma SwapPermutes(s: seq<byte>, i: nat, j: nat)
    requires i < |s| && j < |s|
    ensures multiset(Swap(s, i, j)) == multiset(s)
  {
  }

  /**
   * The Fisher-Yates steps for positions `i`, `i - 1`, ..., 1; the step at
   * position `i` uses draw number `k` with bound `i + 1`.
   */
  function ShuffleFrom(s: seq<byte>, i: nat, seed: Seed, draw: Draw, k: nat): (r: seq<byte>)
    requires i < |s|
    ensures |r| == |s|
    decreases i
  {
    if i == 0 then s
    else
      var j := InRange(draw(seed, k, i + 1), i);
      ShuffleFrom(Swap(s, i, j), i - 1, seed, draw, k + 1)
  }

  /** One `random.shuffle(s)` whose first draw is draw number `k`. */
  function Shuffle(s: seq<byte>, seed: Seed, draw: Draw, k: nat): (r: seq<byte>)
    ensures |r| == |s|
  {
    if |s| == 0 then s else ShuffleFrom(s, |s| - 1, seed, draw, k)
  }

  /** Whatever the draws, the Fisher-Yates steps only rearrange the entries. */
  lemma {:induction false} ShuffleFromPermutes(s: seq<byte>, i: nat, seed: Seed, draw: Draw, k: nat)
    requires i < |s|
    ensures multiset(ShuffleFrom(s, i, seed, draw, k)) == multiset(s)
    decreases i
  {
    if i > 0 {
      var j := InRange(draw(seed, k, i + 1), i);
      SwapPermutes(s, i, j);
      ShuffleFromPermutes(Swap(s, i, j), i - 1, seed, draw, k + 1);
    }
  }

  /**
   * The identity table after `p` successive shuffles. One shuffle of 256
   * entries makes 255 draws, so pass `p` starts at draw number `255 * p`.
   */
  function Shuffled(seed: Seed, draw: Draw, p: nat): (s: seq<byte>)
    ensures |s| == 256
  {
    if p == 0 then Identity()
    else Shuffle(Shuffled(seed, draw, p - 1), seed, draw, 255 * (p - 1))
  }

  /** The first `n` entries of the identity table hold each value below `n` once. */
  lemma {:induction false} IdentityPrefixCount(n: nat, v: byte)
    requires n <= 256
    ensures multiset(Identity()[..n])[v] == if v as int < n then 1 else 0
  {
    if n > 0 {
      IdentityPrefixCount(n - 1, v);
      assert Identity()[..n] == Identity()[..n - 1] + [(n - 1) as byte];
    }
  }

  /** The starting table is a permutation. */
  lemma IdentityIsPermutation()
    ensures IsPermutation(Identity())
  {
    assert Identity()[..256] == Identity();
    forall v: byte
      ensures multiset(Identity())[v] == 1
    {
      IdentityPrefixCount(256, v);
    }
  }

  /** One shuffle of a permutation is again a permutation. */
  lemma ShufflePreservesPermutation(s: seq<byte>, seed: Seed, draw: Draw, k: nat)
    requires IsPermutation(s)
    ensures IsPermutation(Shuffle(s, seed, draw, k))
  {
    ShuffleFromPermutes(s, 255, seed, draw, k);
  }

  /** Before the first pass the table is the identity, a permutation. */
  lemma ShuffledStartsPermutation(seed: Seed, draw: Draw)
    ensures IsPermutation(Shuffled(seed, draw, 0))
  {
    IdentityIsPermutation();
  }

  /** Each pass keeps the table a permutation. */
  lemma ShuffledStepPermutes(seed: Seed, draw: Draw, p: nat)
    requires p > 0 && IsPermutation(Shuffled(seed, draw, p - 1))
    ensures IsPermutation(Shuffled(seed, draw, p))
  {
    var s, k := Shuffled(seed, draw, p - 1), 255 * (p - 1);
    ShufflePreservesPermutation(s, seed, draw, k);
    assert Shuffled(seed, draw, p) == Shuffle(s, seed, draw, k);
  }

  /** Any number of shuffles of the identity yields a permutation of 0..255. */
  lemma {:induction false} ShuffledIsPermutation(seed: Seed, draw: Draw, p: nat)
    ensures IsPermutation(Shuffled(seed, draw, p))
  {
    if p == 0 {
      ShuffledStartsPermutation(seed, draw);
    } else {
      ShuffledIsPermutation(seed, draw, p - 1);
      ShuffledStepPermutes(seed, draw, p);
    }
  }

  /** The substitution table derived from a seed. */
  function SBoxOf(seed: Seed, draw: Draw): (s: seq<byte>)
    ensures |s| == 256
  {
    Shuffled(seed, draw, Passes)
  }

  /** The loop `for i, val in enumerate(sbox): inv_sbox[val] = i` from index `i` on. */
  function InverseFrom(sbox: seq<byte>, i: nat, table: seq<byte>): (inv: seq<byte>)
    requires |sbox| == 256 && |table| == 256 && i <= 256
    ensures |inv| == 256
    decreases 256 - i
  {
    if i == 256 then table
    else InverseFrom(sbox, i + 1, table[sbox[i] as int := i as byte])
  }

  /** `inv_sbox`, filled from `[0] * 256`. */
  function InverseTable(sbox: seq<byte>): (inv: seq<byte>)
    requires |sbox| == 256
    ensures |inv| == 256
  {
    InverseFrom(sbox, 0, seq(256, _ => 0))
  }

  /** A permutation holds no byte value twice. */
  lemma PermutationDistinct(s: seq<byte>, i: nat, j: nat)
    requires IsPermutation(s) && i < j < 256
    ensures s[i] != s[j]
  {
    var v := s[i];
    assert s == s[..j] + [s[j]] + s[j + 1..];
    assert multiset(s) == multiset(s[..j]) + multiset{s[j]} + multiset(s[j + 1..]);
    assert s[..j][i] == v;
    assert multiset(s[..j])[v] >= 1 && multiset(s)[v] == 1;
    assert multiset{s[j]}[v] == 0;
  }

  /** A permutation holds every byte value. */
  lemma PermutationCovers(s: seq<byte>, v: byte)
    requires IsPermutation(s)
    ensures v in s
  {
    assert multiset(s)[v] == 1;
  }

  /** Filling from index `i` keeps the entries already filled and adds the rest. */
  lemma {:induction false} InverseFromCorrect(sbox: seq<byte>, i: nat, table: seq<byte>)
    requires IsPermutation(sbox) && |table| == 256 && i <= 256
    requires forall j :: 0 <= j < i ==> table[sbox[j]] == j as byte
    ensures forall j :: 0 <= j < 256 ==> InverseFrom(sbox, i, table)[sbox[j]] == j as byte
    decreases 256 - i
  {
    if i < 256 {
      var t := table[sbox[i] as int := i as byte];
      forall j | 0 <= j < i + 1
        ensures t[sbox[j]] == j as byte
      {
        if j < i {
          PermutationDistinct(sbox, j, i);
        }
      }
      InverseFromCorrect(sbox, i + 1, t);
    }
  }

  /** For a permutation, the filled table inverts it on both sides. */
  lemma InverseTableCorrect(sbox: seq<byte>)
    requires IsPermutation(sbox)
    ensures |InverseTable(sbox)| == 256
    ensures forall i :: 0 <= i < 256 ==> InverseTable(sbox)[sbox[i]] == i as byte
    ensures forall v :: 0 <= v < 256 ==> sbox[InverseTable(sbox)[v]] == v as byte
  {
    var inv := InverseTable(sbox);
    InverseFromCorrect(sbox, 0, seq(256, _ => 0));
    forall v | 0 <= v < 256
      ensures sbox[inv[v]] == v as byte
    {
      PermutationCovers(sbox, v as byte);
      var i :| 0 <= i < 256 && sbox[i] == v as byte;
      assert inv[sbox[i]] == i as byte;
    }
  }

  /** `a[i], a[j] = a[j], a[i]`. */
  method SwapInPlace(a: array<byte>, i: nat, j: nat)
    requires i < a.Length && j < a.Length
    modifies a
    ensures a[..] == Swap(old(a[..]), i, j)
  {
    a[i], a[j] := a[j], a[i];
  }

  /** One `random.shuffle(a)` in place, its first draw being draw number `k`. */
  method ShuffleInPlace(a: array<byte>, seed: Seed, draw: Draw, k: nat)
    modifies a
    ensures a[..] == Shuffle(old(a[..]), seed, draw, k)
  {
    if a.Length == 0 {
      return;
    }
    var i, count := a.Length - 1, k;
    while i > 0
      invariant 0 <= i < a.Length
      invariant ShuffleFrom(a[..], i, seed, draw, count) == Shuffle(old(a[..]), seed, draw, k)
    {
      var j := InRange(draw(seed, count, i + 1), i);
      SwapInPlace(a, i, j);
      i, count := i - 1, count + 1;
    }
  }

  /** `random.seed(seed)`, then `random.shuffle` the identity table eight times. */
  method ShuffleIdentity(seed: Seed, draw: Draw) returns (sbox: seq<byte>)
    ensures sbox == SBoxOf(seed, draw)
  {
    var a := new byte[256](i requires 0 <= i < 256 => i as byte);
    assert a[..] == Identity();
    for p := 0 to Passes
      invariant a[..] == Shuffled(seed, draw, p)
    {
      ShuffleInPlace(a, seed, draw, 255 * p);
    }
    sbox := a[..];
  }

  /** `inv_sbox = [0] * 256`, then `inv_sbox[val] = i` for each position `i`. */
  method FillInverse(sbox: seq<byte>) returns (inv: seq<byte>)
    requires |sbox| == 256
    ensures inv == InverseTable(sbox)
  {
    var t := new byte[256](_ => 0);
    assert t[..] == seq(256, _ => 0);
    for i := 0 to 256
      invariant InverseFrom(sbox, i, t[..]) == InverseTable(sbox)
    {
      t[sbox[i]] := i as byte;
    }
    inv := t[..];
  }

  /**
   * `_create_sboxes`: the shuffled table and its inverse. The same seed and
   * generator always give the same tables.
   */
  method CreateSBoxes(seed: Seed, draw: Draw) returns (sbox: seq<byte>, inv: seq<byte>)
    ensures sbox == SBoxOf(seed, draw) && IsPermutation(sbox)
    ensures inv == InverseTable(sbox) && |inv| == 256
    ensures forall i :: 0 <= i < 256 ==> inv[sbox[i]] == i as byte
    ensures forall v :: 0 <= v < 256 ==> sbox[inv[v]] == v as byte
  {
    sbox := ShuffleIdentity(seed, draw);
    inv := FillInverse(sbox);
    ShuffledIsPermutation(seed, draw, Passes);
    InverseTableCorrect(sbox);
  }
}
