# crypticoder encoder core in Dafny

This project models the `Encoder` of crypticoder, a reversible, key-dependent
byte transform. The key enters only through its SHA-256 digest. From the
digest the encoder derives:

- a keystream of the data's length, where byte `i` is the XOR of the digest
  bytes at `7i` and `3i` modulo the digest length;
- a 32-bit seed, read big-endian from the first four digest bytes. The seed
  drives eight `random.shuffle` passes over the identity table 0..255. The
  result is the S-box, and an inverse table is filled from it.

Encoding has four stages. It XORs with the keystream, substitutes through the
S-box, rotates each byte left by three bits and reverses the sequence. Decoding
runs the inverse stages in the opposite order.

Modules, one per component:

- `Bytes` (bytes.dfy): the byte type (the integers 0..255 of a Python `bytes`)
  and Python's integer `^`, `|` and `&` on non-negative integers, each defined
  bit by bit from the lowest bit up. Also three small division facts
  (`MultipleBound`, `DivModUnique`, `ModDouble`) and the split of a number into
  its lowest bit and the rest (`SplitLowBit`). Python's
  `b << k` is `b * 2^k` and `b >> k` is `b / 2^k` (floor division); the model
  writes them that way.
- `Keystream` (keystream.dfy): `_generate_keystream`. `Expanded` is the
  specification and `Generate` is the append loop.
- `SBox` (sbox.dfy): `_create_sboxes`. It covers the Fisher-Yates shuffle that
  `random.shuffle` performs, done in place on an array, and the loop that fills
  the inverse table. Each has a functional specification (`Shuffle`,
  `Shuffled`, `SBoxOf`, `InverseTable`).
- `Encoder` (encoder.dfy): the `>I` seed extraction, the byte rotations, the
  four stages, `Encode`/`Decode` as functions, and `EncodeBytes`/`DecodeBytes`.
  These two methods follow the source's call sequence through the imperative
  helpers.

The random generator is a parameter `draw: (Seed, nat, nat) -> nat`.
`draw(seed, k, n)` is the `k`-th call `randbelow(n)` after `random.seed(seed)`,
capped at `n - 1`. Every generator whose draws stay below their bound is such a
function. So the permutation property of the S-box is proved for every
generator, not assumed. Encode and decode compute the same S-box because both
apply `SBoxOf` to the same seed and the same generator.

## Model

| member | source | states |
|---|---|---|
| `Keystream.Expanded` | crypticoder/crypticoder.py:15-21 | the keystream has exactly `n` bytes, and byte `i` is `h[(7i) mod len(h)] ^ h[(3i) mod len(h)]` |
| `Keystream.Generate` | crypticoder/crypticoder.py:17-21 | the append loop over `range(length)` builds exactly that keystream; an empty digest is allowed only when no bytes are asked for |
| `Keystream.DependsOnResidue` | crypticoder/crypticoder.py:19-20 | keystream byte `i` equals keystream byte `i mod len(h)` |
| `Keystream.Periodic` | crypticoder/crypticoder.py:19-20 | the keystream repeats with period `len(h)` (32 for a SHA-256 digest) |
| `Bytes.XorBits` | crypticoder/crypticoder.py:45 | the model's `^` (`Bytes.Xor`) acts bit by bit on all naturals: the lowest bit of `a ^ b` is the XOR of the lowest bits, and `(a ^ b) // 2 == (a // 2) ^ (b // 2)` |
| `Bytes.XorByte` | crypticoder/crypticoder.py:45 | `b ^ k` on two bytes is a byte whose value is the integer XOR `Bytes.Xor(b, k)`, with no truncation |
| `Bytes.XorBound` | crypticoder/crypticoder.py:20 | `^` of two `k`-bit numbers is a `k`-bit number, so every keystream and XOR-stage item is a valid byte |
| `Bytes.XorTwice` | crypticoder/crypticoder.py:73 | `(a ^ b) ^ b == a`, the fact behind decode's final XOR |
| `Bytes.XorSelf` | crypticoder/crypticoder.py:73 | `a ^ a == 0` |
| `Bytes.XorByteTwice` | crypticoder/crypticoder.py:45 | on bytes, `(a ^ b) ^ b == a` |
| `SBox.ShuffleFrom` | crypticoder/crypticoder.py:29 | the remaining Fisher-Yates steps of `random.shuffle` from position `i` down to 1 (swap `i` with the drawn `j <= i`) keep the length; the kept multiset is `SBox.ShuffleFromPermutes` |
| `SBox.Shuffle` | crypticoder/crypticoder.py:29 | one `random.shuffle` of a list, its first draw numbered `k`, keeps the length |
| `SBox.SwapInPlace` | crypticoder/crypticoder.py:29 | the swap `a[i], a[j] = a[j], a[i]` leaves the array equal to the old contents with entries `i` and `j` exchanged |
| `SBox.ShuffleInPlace` | crypticoder/crypticoder.py:29 | one in-place `random.shuffle` (swap position `i` with a drawn `j <= i`, for `i` from the end down to 1) leaves the array equal to the `Shuffle` specification of its old contents |
| `SBox.ShuffleFromPermutes` | crypticoder/crypticoder.py:29 | whatever the drawn indices, the shuffle steps keep the multiset of entries |
| `SBox.ShufflePreservesPermutation` | crypticoder/crypticoder.py:29 | a shuffle of a permutation of 0..255 is again one |
| `SBox.Shuffled` | crypticoder/crypticoder.py:27-29 | `list(range(256))` after `p` shuffles, pass `p` starting at draw `255 * p`, still has 256 entries |
| `SBox.SBoxOf` | crypticoder/crypticoder.py:26-29 | the S-box for a seed and generator is the identity after eight shuffles, 256 entries long; `SBox.ShuffledIsPermutation` proves it a permutation |
| `SBox.ShuffledStepPermutes` | crypticoder/crypticoder.py:28-29 | each of the eight passes turns a permutation of 0..255 into a permutation of 0..255 |
| `SBox.ShuffledIsPermutation` | crypticoder/crypticoder.py:27-29 | `list(range(256))` after any number of shuffles is a permutation of 0..255 |
| `SBox.ShuffleIdentity` | crypticoder/crypticoder.py:26-29 | seeding and eight in-place shuffles of the identity table give `SBoxOf(seed, draw)` |
| `SBox.InverseFrom` | crypticoder/crypticoder.py:32-33 | the rest of the `inv_sbox[val] = i` loop from index `i` on keeps 256 entries; its effect is `SBox.InverseFromCorrect` |
| `SBox.InverseTable` | crypticoder/crypticoder.py:31-33 | `inv_sbox` filled from `[0] * 256` has 256 entries; `SBox.InverseTableCorrect` proves it inverts the S-box |
| `SBox.FillInverse` | crypticoder/crypticoder.py:31-33 | filling `[0] * 256` with `inv_sbox[val] = i` over `enumerate(sbox)` gives `InverseTable(sbox)` |
| `SBox.PermutationDistinct` | crypticoder/crypticoder.py:27-29 | a permutation of 0..255 holds no value twice |
| `SBox.PermutationCovers` | crypticoder/crypticoder.py:27-29 | a permutation of 0..255 holds every value |
| `SBox.InverseTableCorrect` | crypticoder/crypticoder.py:31-33 | for a permutation `sbox`, `inv_sbox[sbox[i]] == i` for every `i` and `sbox[inv_sbox[v]] == v` for every `v` in 0..255 |
| `SBox.CreateSBoxes` | crypticoder/crypticoder.py:24-35 | returns the table determined by seed and generator, a permutation of 0..255, together with its inverse on both sides |
| `Encoder.UnpackBigEndian` | crypticoder/crypticoder.py:41 | `struct.unpack('>I', ...)` of four bytes is a `Seed` below 2^32 whose most significant byte is `b[0]` and whose least significant byte is `b[3]` |
| `Encoder.SeedOf` | crypticoder/crypticoder.py:41 | the seed `struct.unpack('>I', key_hash[:4])[0]`, used alike by encode (:41) and decode (:60), is below 2^32, with `key_hash[0]` as its top byte and `key_hash[3]` as its lowest |
| `Encoder.SeedOfExample` | crypticoder/crypticoder.py:41 | digest bytes `ff 00 00 01` give the seed `0xff000001`, so the byte order is big-endian |
| `Encoder.UnpackPack` | crypticoder/crypticoder.py:41 | every 32-bit seed is the big-endian reading of its own four bytes |
| `Encoder.PackUnpack` | crypticoder/crypticoder.py:60 | the big-endian reading of four digest bytes loses nothing: packing it back gives the same four bytes |
| `Bytes.Or` | crypticoder/crypticoder.py:51 | the model's `a OR b` on naturals is at least each operand |
| `Bytes.OrBits` | crypticoder/crypticoder.py:51 | the model's OR acts bit by bit: the lowest bit is set when either lowest bit is, and `(a OR b) // 2 == (a // 2) OR (b // 2)` |
| `Bytes.And` | crypticoder/crypticoder.py:51 | the model's `a & b` on naturals is at most each operand |
| `Bytes.AndBits` | crypticoder/crypticoder.py:51 | the model's `&` acts bit by bit: the lowest bit is set when both lowest bits are, and `(a & b) // 2 == (a // 2) & (b // 2)` |
| `Bytes.OrCommutes` | crypticoder/crypticoder.py:66 | bitwise OR does not depend on the order of its operands |
| `Bytes.OrDisjoint` | crypticoder/crypticoder.py:51 | OR-ing `a << k` with any `c < 2^k` is the sum `(a << k) + c`, since their bits do not overlap |
| `Bytes.AndLowMask` | crypticoder/crypticoder.py:51 | `x & (2^k - 1) == x mod 2^k` |
| `Encoder.MaskByte` | crypticoder/crypticoder.py:51 | `x & 0xff == x mod 256` |
| `Encoder.RotateLeftValue` | crypticoder/crypticoder.py:51 | for a byte `b`, `(b << 3) OR (b >> 5)`, masked with `0xff`, equals `(b mod 32) * 8 + b / 32`: the low five bits move up three places and the top three come round to the bottom |
| `Encoder.RotateRightValue` | crypticoder/crypticoder.py:66 | for a byte `b`, `(b >> 3) OR (b << 5)`, masked with `0xff`, equals `(b mod 8) * 32 + b / 8`: the top five bits move down three places and the low three come round to the top |
| `Encoder.RotateLeft3` | crypticoder/crypticoder.py:51 | the rotation used in encoding yields a byte, and its value is `(b mod 32) * 8 + b / 32` |
| `Encoder.RotateRight3` | crypticoder/crypticoder.py:66 | the rotation used in decoding yields a byte, and its value is `(b mod 8) * 32 + b / 8` |
| `Encoder.RotateInverse` | crypticoder/crypticoder.py:66 | rotating right by 3 undoes rotating left by 3, and the other way round, on every byte |
| `Encoder.XorStage` | crypticoder/crypticoder.py:45 | `zip` makes the XOR stage as long as the shorter of data and keystream |
| `Encoder.Substitute` | crypticoder/crypticoder.py:48 | `bytes([sbox[b] for b in xored])`: same length, item `i` is the table entry at `xs[i]` |
| `Encoder.RotateLeftAll` | crypticoder/crypticoder.py:51 | the rotation stage of encoding: same length, item `i` is `RotateLeft3(xs[i])` |
| `Encoder.RotateRightAll` | crypticoder/crypticoder.py:66 | the rotation stage of decoding: same length, item `i` is `RotateRight3(xs[i])` |
| `Encoder.Reverse` | crypticoder/crypticoder.py:54 | `xs[::-1]`: same length, item `i` is `xs[len(xs) - 1 - i]` |
| `Encoder.XorStageTwice` | crypticoder/crypticoder.py:72-73 | XORing twice with a keystream at least as long as the data restores the data |
| `Encoder.SubstituteInverse` | crypticoder/crypticoder.py:69 | substituting through a table and then through a table that inverts it restores the data |
| `Encoder.RotateAllInverse` | crypticoder/crypticoder.py:66 | the rotate-right stage undoes the rotate-left stage, and the other way round |
| `Encoder.ReverseTwice` | crypticoder/crypticoder.py:63 | reversing twice restores the sequence |
| `Encoder.Encode` | crypticoder/crypticoder.py:38-54 | encoding preserves length: the keystream is `len(data)` long, so `zip` does not truncate |
| `Encoder.Decode` | crypticoder/crypticoder.py:57-73 | decoding preserves length |
| `Encoder.DecodeEncode` | crypticoder/crypticoder.py:38-73 | `decode(encode(d, k), k) == d` for every byte sequence `d`, digest and generator |
| `Encoder.EncodeDecode` | crypticoder/crypticoder.py:38-73 | `encode(decode(c, k), k) == c`, so encoding is a bijection on each length |
| `Encoder.EmptyToEmpty` | crypticoder/crypticoder.py:44-54 | empty input gives empty output for both encode and decode |
| `Encoder.EncodeBytes` | crypticoder/crypticoder.py:38-54 | the source's `encode`, run through `_create_sboxes` and `_generate_keystream`, computes exactly `Encode` |
| `Encoder.DecodeBytes` | crypticoder/crypticoder.py:57-73 | the source's `decode`, run through the same helpers, computes exactly `Decode` |

## Left out

- SHA-256 (`hashlib.sha256(key.encode()).digest()`) and the UTF-8 encoding of the key are not modelled. Every operation takes the 32-byte digest as input. The same key gives the same digest, so encode and decode see equal inputs.
- CPython's Mersenne Twister and `_randbelow` are not modelled. The `k`-th bounded draw after seeding is the parameter `draw`, capped below its bound (`SBox.InRange`).
- SBox.ShuffleInPlace: the process-global generator is modelled as starting fresh at `random.seed(key_seed)` and numbering its draws from there. Other code drawing from the same global generator between the seed and the shuffles is not modelled. The source does no such thing.
- `CryptographicApp` is not part of this model. It holds the Tk/ttkbootstrap window, dialogs, progress and status bar, the base64 transport in `_encode_text`/`_decode_text`, and the file reading and writing and output naming in `_process_file`. All of these are user interface or I/O.
- The `ValueError` that `bytes([...])` raises for items outside 0..255 is not modelled as an error path. `Bytes.XorBound`, `Encoder.RotateLeft3` and `Encoder.RotateRight3` prove it cannot occur.
- The digest length is fixed at 32 by the `Digest` type, as SHA-256 guarantees. `Keystream.Expanded` and `Keystream.Generate` accept any digest length except an empty one with a positive length (next line).
- Keystream.Expanded and Keystream.Generate: an empty digest with a positive length makes `_generate_keystream` raise `ZeroDivisionError` at `% hash_len`. The requires `n == 0 or |h| > 0` excludes that case, so this error path is not modelled. Encode and decode cannot reach it, because a SHA-256 digest has 32 bytes.
