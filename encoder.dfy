/**
 * The encode/decode pipeline (`Encoder.encode`, `Encoder.decode`).
 *
 * Encoding XORs the data with the keystream, substitutes every byte through
 * the S-box, rotates every byte left by three bits and reverses the whole
 * sequence; decoding undoes the four stages in the opposite order. The key
 * enters only through its SHA-256 digest, which is taken here as given.
 */
module Encoder {

  import opened Bytes
  import opened Keystream
  import opened SBox

  /** A SHA-256 digest of the key. */
  type Digest = h: seq<byte> | |h| == 32 witness seq(32, _ => 0)

  /** `struct.unpack('>I', b)[0]`: four bytes read most significant first. */
  function UnpackBigEndian(b: seq<byte>): (r: Seed)
    requires |b| == 4
    ensures r / 0x100_0000 == b[0] as int && r % 0x100 == b[3] as int
  {
    var low := b[1] as int * 0x1_0000 + b[2] as int * 0x100 + b[3] as int;
    var high := b[0] as int * 0x1_0000 + b[1] as int * 0x100 + b[2] as int;
    DivModUnique(b[0] as int * 0x100_0000 + low, 0x100_0000, b[0] as int, low);
    DivModUnique(high * 0x100 + b[3] as int, 0x100, high, b[3] as int);
    b[0] as nat * 0x100_0000 + b[1] as nat * 0x1_0000 + b[2] as nat * 0x100 + b[3] as nat
  }

  /** `struct.pack('>I', x)`: a 32-bit integer as four bytes, most significant first. */
  function PackBigEndian(x: Seed): (b: seq<byte>)
    ensures |b| == 4
  {
    var q1 := x / 0x100;
    var q2 := q1 / 0x100;
    var q3 := q2 / 0x100;
    [q3 as byte, (q2 % 0x100) as byte, (q1 % 0x100) as byte, (x % 0x100) as byte]
  }

  /** Reading back what was packed gives the integer again. */
  lemma UnpackPack(x: Seed)
    ensures UnpackBigEndian(PackBigEndian(x)) == x
  {
    var q1 := x / 0x100;
    var q2 := q1 / 0x100;
    var q3 := q2 / 0x100;
    assert x == q1 * 0x100 + x % 0x100;
    assert q1 == q2 * 0x100 + q1 % 0x100;
    assert q2 == q3 * 0x100 + q2 % 0x100;
  }

  /** Packing what was read gives the four bytes again. */
  lemma PackUnpack(b: seq<byte>)
    requires |b| == 4
    ensures PackBigEndian(UnpackBigEndian(b)) == b
  {
    var x := UnpackBigEndian(b);
    var q1 := b[0] as int * 0x1_0000 + b[1] as int * 0x100 + b[2] as int;
    var q2 := b[0] as int * 0x100 + b[1] as int;
    DivModUnique(x, 0x100, q1, b[3] as int);
    DivModUnique(q1, 0x100, q2, b[2] as int);
    DivModUnique(q2, 0x100, b[0] as int, b[1] as int);
  }

  /** The PRNG seed: the first four digest bytes, big-endian. */
  function SeedOf(h: Digest): (s: Seed)
    ensures s / 0x100_0000 == h[0] as int && s % 0x100 == h[3] as int
  {
    UnpackBigEndian(h[..4])
  }

  /** The byte order is most significant first: `ff 00 00 01` is `0xff00_0001`. */
  lemma SeedOfExample(h: Digest)
    requires h[..4] == [0xff, 0, 0, 1]
    ensures SeedOf(h) == 0xff00_0001
  {
  }

  /** The powers of two the rotations shift by. */
  lemma ShiftPowers()
    ensures Pow2(3) == 8 && Pow2(5) == 32 && Pow2(8) == 256
  {
  }

  /** Masking with `0xff` keeps the value modulo 256. */
  lemma MaskByte(x: nat)
    ensures And(x, 0xff) == x % 256
  {
    ShiftPowers();
    AndLowMask(x, 8);
  }

  /**
   * `((b << 3) | (b >> 5)) & 0xff` on a byte: the low five bits move up by
   * three places and the top three bits come round to the bottom.
   */
  lemma RotateLeftValue(b: nat)
    requires b < 256
    ensures And(Or(b * 8, b / 32), 0xff) == b % 32 * 8 + b / 32
  {
    var hi, lo := b / 32, b % 32;
    ShiftPowers();
    OrDisjoint(b, hi, 3);
    MaskByte(b * 8 + hi);
    assert b * 8 + hi == hi * 256 + (lo * 8 + hi);
    DivModUnique(b * 8 + hi, 256, hi, lo * 8 + hi);
  }

  /**
   * `((b >> 3) | (b << 5)) & 0xff` on a byte: the top five bits move down by
   * three places and the low three bits come round to the top.
   */
  lemma RotateRightValue(b: nat)
    requires b < 256
    ensures And(Or(b / 8, b * 32), 0xff) == b % 8 * 32 + b / 8
  {
    var hi := b / 8;
    ShiftPowers();
    OrCommutes(hi, b * 32);
    OrDisjoint(b, hi, 5);
    assert Or(b / 8, b * 32) == b * 32 + hi;
    MaskByte(b * 32 + hi);
    RotateRightWraps(b);
  }

  /** `b << 5` keeps only its lowest three bits of `b` below bit 8. */
  lemma RotateRightWraps(b: nat)
    requires b < 256
    ensures (b * 32 + b / 8) % 256 == b % 8 * 32 + b / 8
  {
    var hi, lo := b / 8, b % 8;
    assert b == hi * 8 + lo;
    assert b * 32 + hi == hi * 256 + (lo * 32 + hi);
    DivModUnique(b * 32 + hi, 256, hi, lo * 32 + hi);
  }

  /** Phase 3 of encoding on one byte: rotate left by three bits. */
  function RotateLeft3(b: byte): (r: byte)
    ensures r as int == b as int % 32 * 8 + b as int / 32
  {
    RotateLeftValue(b as nat);
    And(Or(b as nat * 8, b as nat / 32), 0xff) as byte
  }

  /** Phase 3 of decoding on one byte: rotate right by three bits. */
  function RotateRight3(b: byte): (r: byte)
    ensures r as int == b as int % 8 * 32 + b as int / 8
  {
    RotateRightValue(b as nat);
    And(Or(b as nat / 8, b as nat * 32), 0xff) as byte
  }

  /** The two rotations undo each other. */
  lemma RotateInverse(b: byte)
    ensures RotateRight3(RotateLeft3(b)) == b
    ensures RotateLeft3(RotateRight3(b)) == b
  {
    var x := b as int;
    var l := RotateLeft3(b) as int;
    assert l == x % 32 * 8 + x / 32;
    DivModUnique(l, 8, x % 32, x / 32);
    assert x == x / 32 * 32 + x % 32;
    var r := RotateRight3(b) as int;
    assert r == x % 8 * 32 + x / 8;
    DivModUnique(r, 32, x % 8, x / 8);
    assert x == x / 8 * 8 + x % 8;
  }

  /** `bytes([b ^ k for b, k in zip(xs, ks)])`: `zip` stops at the shorter input. */
  function XorStage(xs: seq<byte>, ks: seq<byte>): (r: seq<byte>)
    ensures |r| == if |xs| <= |ks| then |xs| else |ks|
  {
    var n := if |xs| <= |ks| then |xs| else |ks|;
    seq(n, i requires 0 <= i < n => XorByte(xs[i], ks[i]))
  }

  /** `bytes([table[b] for b in xs])`. */
  function Substitute(xs: seq<byte>, table: seq<byte>): (r: seq<byte>)
    requires |table| == 256
    ensures |r| == |xs|
    ensures forall i :: 0 <= i < |xs| ==> r[i] == table[xs[i]]
  {
    seq(|xs|, i requires 0 <= i < |xs| => table[xs[i]])
  }

  /** Stage 3 of encoding, byte by byte. */
  function RotateLeftAll(xs: seq<byte>): (r: seq<byte>)
    ensures |r| == |xs|
    ensures forall i :: 0 <= i < |xs| ==> r[i] == RotateLeft3(xs[i])
  {
    seq(|xs|, i requires 0 <= i < |xs| => RotateLeft3(xs[i]))
  }

  /** Stage 2 of decoding, byte by byte. */
  function RotateRightAll(xs: seq<byte>): (r: seq<byte>)
    ensures |r| == |xs|
    ensures forall i :: 0 <= i < |xs| ==> r[i] == RotateRight3(xs[i])
  {
    seq(|xs|, i requires 0 <= i < |xs| => RotateRight3(xs[i]))
  }

  /** `xs[::-1]`. */
  function Reverse(xs: seq<byte>): (r: seq<byte>)
    ensures |r| == |xs|
    ensures forall i :: 0 <= i < |xs| ==> r[i] == xs[|xs| - 1 - i]
  {
    seq(|xs|, i requires 0 <= i < |xs| => xs[|xs| - 1 - i])
  }

  /** `Encoder.encode` on the digest of the key. */
  function Encode(data: seq<byte>, h: Digest, draw: Draw): (r: seq<byte>)
    ensures |r| == |data|
  {
    var sbox := SBoxOf(SeedOf(h), draw);
    var xored := XorStage(data, Expanded(h, |data|));
    Reverse(RotateLeftAll(Substitute(xored, sbox)))
  }

  /** `Encoder.decode` on the digest of the key. */
  function Decode(data: seq<byte>, h: Digest, draw: Draw): (r: seq<byte>)
    ensures |r| == |data|
  {
    var inv := InverseTable(SBoxOf(SeedOf(h), draw));
    var unsubstituted := Substitute(RotateRightAll(Reverse(data)), inv);
    XorStage(unsubstituted, Expanded(h, |unsubstituted|))
  }

  /** XORing twice with a keystream at least as long restores the data. */
  lemma XorStageTwice(xs: seq<byte>, ks: seq<byte>)
    requires |xs| <= |ks|
    ensures XorStage(XorStage(xs, ks), ks) == xs
  {
    forall i | 0 <= i < |xs|
      ensures XorStage(XorStage(xs, ks), ks)[i] == xs[i]
    {
      XorByteTwice(xs[i], ks[i]);
    }
  }

  /** Substituting through a table and then through its inverse restores the data. */
  lemma SubstituteInverse(xs: seq<byte>, table: seq<byte>, inv: seq<byte>)
    requires |table| == 256 && |inv| == 256
    requires forall v :: 0 <= v < 256 ==> inv[table[v]] == v as byte
    ensures Substitute(Substitute(xs, table), inv) == xs
  {
    forall i | 0 <= i < |xs|
      ensures Substitute(Substitute(xs, table), inv)[i] == xs[i]
    {
      assert inv[table[xs[i]]] == xs[i] as int as byte;
    }
  }

  /** Rotating every byte left and then right, or right and then left, restores the data. */
  lemma RotateAllInverse(xs: seq<byte>)
    ensures RotateRightAll(RotateLeftAll(xs)) == xs
    ensures RotateLeftAll(RotateRightAll(xs)) == xs
  {
    forall i | 0 <= i < |xs|
      ensures RotateRightAll(RotateLeftAll(xs))[i] == xs[i]
      ensures RotateLeftAll(RotateRightAll(xs))[i] == xs[i]
    {
      RotateInverse(xs[i]);
    }
  }

  /** Reversing twice restores the data. */
  lemma ReverseTwice(xs: seq<byte>)
    ensures Reverse(Reverse(xs)) == xs
  {
  }

  /** Decoding what was encoded under the same key gives the data back. */
  lemma DecodeEncode(data: seq<byte>, h: Digest, draw: Draw)
    ensures Decode(Encode(data, h, draw), h, draw) == data
  {
    var sbox := SBoxOf(SeedOf(h), draw);
    var inv := InverseTable(sbox);
    var ks := Expanded(h, |data|);
    var xored := XorStage(data, ks);
    var rotated := RotateLeftAll(Substitute(xored, sbox));
    ShuffledIsPermutation(SeedOf(h), draw, Passes);
    InverseTableCorrect(sbox);
    ReverseTwice(rotated);
    RotateAllInverse(Substitute(xored, sbox));
    SubstituteInverse(xored, sbox, inv);
    XorStageTwice(data, ks);
  }

  /** Encoding what was decoded under the same key gives the input back. */
  lemma EncodeDecode(data: seq<byte>, h: Digest, draw: Draw)
    ensures Encode(Decode(data, h, draw), h, draw) == data
  {
    var sbox := SBoxOf(SeedOf(h), draw);
    var inv := InverseTable(sbox);
    var unrotated := RotateRightAll(Reverse(data));
    var unsubstituted := Substitute(unrotated, inv);
    var ks := Expanded(h, |data|);
    ShuffledIsPermutation(SeedOf(h), draw, Passes);
    InverseTableCorrect(sbox);
    XorStageTwice(unsubstituted, ks);
    SubstituteInverse(unrotated, inv, sbox);
    RotateAllInverse(Reverse(data));
    ReverseTwice(data);
  }

  /** Empty input gives empty output in both directions. */
  lemma EmptyToEmpty(h: Digest, draw: Draw)
    ensures Encode([], h, draw) == [] && Decode([], h, draw) == []
  {
  }

  /** `Encoder.encode` as written: the S-box and keystream come from the imperative helpers. */
  method EncodeBytes(data: seq<byte>, h: Digest, draw: Draw) returns (r: seq<byte>)
    ensures r == Encode(data, h, draw)
  {
    var sbox, _ := CreateSBoxes(SeedOf(h), draw);
    var keystream := Generate(h, |data|);
    var xored := XorStage(data, keystream);
    var substituted := Substitute(xored, sbox);
    var rotated := RotateLeftAll(substituted);
    r := Reverse(rotated);
  }

  /** `Encoder.decode` as written: the inverse S-box and keystream come from the imperative helpers. */
  method DecodeBytes(data: seq<byte>, h: Digest, draw: Draw) returns (r: seq<byte>)
    ensures r == Decode(data, h, draw)
  {
    var _, inv := CreateSBoxes(SeedOf(h), draw);
    var reversed := Reverse(data);
    var unrotated := RotateRightAll(reversed);
    var unsubstituted := Substitute(unrotated, inv);
    var keystream := Generate(h, |unsubstituted|);
    r := XorStage(unsubstituted, keystream);
  }
}
