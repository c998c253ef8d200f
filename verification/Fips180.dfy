/** SHA-256 as FIPS 180-4 defines it: sections 4.1.2, 4.2.2, 5.1.1, 5.3.3 and 6.2.2. */
module Fips180 {

  import opened Arith
  import Bits
  import opened Bytes

  type Word = x: int | 0 <= x < 0x1_0000_0000

  lemma WordRange(x: nat)
    ensures x < Pow2(32) <==> x < UINT_RANGE
  {
    PowersOfTwo();
  }

  // ----- sections 2.2.2 and 3.2: operations on words

  function Word32(op: Bits.BitOp, x: Word, y: Word): Word {
    WordRange(x);
    WordRange(y);
    WordRange(Bits.Bitwise(op, x, y));
    Bits.BitwiseBound(op, 32, x, y);
    Bits.Bitwise(op, x, y)
  }

  function And(x: Word, y: Word): Word { Word32(Bits.AndOp, x, y) }

  function Or(x: Word, y: Word): Word { Word32(Bits.OrOp, x, y) }

  function Xor(x: Word, y: Word): Word { Word32(Bits.XorOp, x, y) }

  function Not(x: Word): Word { UINT_RANGE - 1 - x }

  function Plus(x: Word, y: Word): Word { (x + y) % UINT_RANGE }

  function Shr(x: Word, n: nat): Word {
    DivBound(x, Pow2(n));
    x / Pow2(n)
  }

  function Shl(x: Word, n: nat): Word { (x * Pow2(n)) % UINT_RANGE }

  function Rotr(x: Word, n: nat): Word
    requires n <= 32
  {
    Or(Shr(x, n), Shl(x, 32 - n))
  }

  /** A number of `w` bits has no others. */
  lemma HighBits(x: nat, w: nat, i: nat)
    requires x < Pow2(w) && w <= i
    ensures Bits.Bit(x, i) == 0
  {
    Bits.Pow2Sum(w, i - w);
    MulMonotone(1, Pow2(i - w), Pow2(w));
    DivModUnique(x, Pow2(i), 0, x);
  }

  /** Section 3.2: a rotation moves every bit down by `n` places, and those that fall off come back at the top. */
  lemma RotrBits(x: Word, n: nat, i: nat)
    requires n <= 32 && i < 32
    ensures Bits.Bit(Rotr(x, n), i) == Bits.Bit(x, (i + n) % 32)
  {
    hide Bits.Bit, Bits.Bitwise, Pow2;
    PowersOfTwo();
    Bits.BitOfBitwise(Bits.OrOp, Shr(x, n), Shl(x, 32 - n), i);
    Bits.BitOfShr(x, n, i);
    Bits.BitOfShl(x, 32 - n, 32, i);
    if 32 <= i + n {
      HighBits(x, 32, i + n);
    }
  }

  /** A shift moves every bit down by `n` places, and zeros in at the top. */
  lemma ShrBits(x: Word, n: nat, i: nat)
    ensures Bits.Bit(Shr(x, n), i) == if i + n < 32 then Bits.Bit(x, i + n) else 0
  {
    hide Bits.Bit, Pow2;
    PowersOfTwo();
    Bits.BitOfShr(x, n, i);
    if 32 <= i + n {
      HighBits(x, 32, i + n);
    }
  }

  /** Section 3.2: addition modulo 2^32. */
  lemma PlusWraps(x: Word, y: Word)
    ensures Plus(x, y) == if x + y < UINT_RANGE then x + y else x + y - UINT_RANGE
  {
  }

  /** The bitwise operations work on each of the 32 bits by itself. */
  lemma BitsOfWords(x: Word, y: Word, i: nat)
    requires i < 32
    ensures Bits.Bit(And(x, y), i) == 1 <==> Bits.Bit(x, i) == 1 && Bits.Bit(y, i) == 1
    ensures Bits.Bit(Or(x, y), i) == 1 <==> Bits.Bit(x, i) == 1 || Bits.Bit(y, i) == 1
    ensures Bits.Bit(Xor(x, y), i) == 1 <==> Bits.Bit(x, i) != Bits.Bit(y, i)
    ensures Bits.Bit(Not(x), i) == 1 - Bits.Bit(x, i)
  {
    hide Bits.Bit, Bits.Bitwise, Pow2;
    Bits.BitOfBitwise(Bits.AndOp, x, y, i);
    Bits.BitOfBitwise(Bits.OrOp, x, y, i);
    Bits.BitOfBitwise(Bits.XorOp, x, y, i);
    PowersOfTwo();
    Bits.BitOfNot(32, x, i);
  }

  // ----- section 4.1.2: functions on words

  function Ch(x: Word, y: Word, z: Word): Word { Xor(And(x, y), And(Not(x), z)) }

  function Maj(x: Word, y: Word, z: Word): Word { Xor(Xor(And(x, y), And(x, z)), And(y, z)) }

  function BigSigma0(x: Word): Word { Xor(Xor(Rotr(x, 2), Rotr(x, 13)), Rotr(x, 22)) }

  function BigSigma1(x: Word): Word { Xor(Xor(Rotr(x, 6), Rotr(x, 11)), Rotr(x, 25)) }

  function SmallSigma0(x: Word): Word { Xor(Xor(Rotr(x, 7), Rotr(x, 18)), Shr(x, 3)) }

  function SmallSigma1(x: Word): Word { Xor(Xor(Rotr(x, 17), Rotr(x, 19)), Shr(x, 10)) }

  // ----- section 4.2.2: constants

  /** Row `r` of the table: K_{8r} to K_{8r+7}. */
  function Row(r: nat): (k: seq<Word>)
    requires r < 8
    ensures |k| == 8
  {
    match r
    case 0 => [0x428a2f98, 0x71374491, 0xb5c0fbcf, 0xe9b5dba5, 0x3956c25b, 0x59f111f1, 0x923f82a4, 0xab1c5ed5]
    case 1 => [0xd807aa98, 0x12835b01, 0x243185be, 0x550c7dc3, 0x72be5d74, 0x80deb1fe, 0x9bdc06a7, 0xc19bf174]
    case 2 => [0xe49b69c1, 0xefbe4786, 0x0fc19dc6, 0x240ca1cc, 0x2de92c6f, 0x4a7484aa, 0x5cb0a9dc, 0x76f988da]
    case 3 => [0x983e5152, 0xa831c66d, 0xb00327c8, 0xbf597fc7, 0xc6e00bf3, 0xd5a79147, 0x06ca6351, 0x14292967]
    case 4 => [0x27b70a85, 0x2e1b2138, 0x4d2c6dfc, 0x53380d13, 0x650a7354, 0x766a0abb, 0x81c2c92e, 0x92722c85]
    case 5 => [0xa2bfe8a1, 0xa81a664b, 0xc24b8b70, 0xc76c51a3, 0xd192e819, 0xd6990624, 0xf40e3585, 0x106aa070]
    case 6 => [0x19a4c116, 0x1e376c08, 0x2748774c, 0x34b0bcb5, 0x391c0cb3, 0x4ed8aa4a, 0x5b9cca4f, 0x682e6ff3]
    case _ => [0x748f82ee, 0x78a5636f, 0x84c87814, 0x8cc70208, 0x90befffa, 0xa4506ceb, 0xbef9a3f7, 0xc67178f2]
  }

  function K(t: nat): Word
    requires t < 64
  {
    Row(t / 8)[t % 8]
  }

  // ----- section 5.1.1: padding

  /** The number of zero octets after the marker octet: the least that leaves room for the length in the last block. */
  function ZeroCount(n: nat): (z: nat)
    ensures (n + 1 + z) % 64 == 56
    ensures z < 64
  {
    if n % 64 <= 55 then 55 - n % 64 else 119 - n % 64
  }

  /** `n` as `k` octets, most significant first. */
  function BigEndian(n: nat, k: nat): (s: seq<Byte>)
    ensures |s| == k
  {
    if k == 0 then [] else BigEndian(n / 256, k - 1) + [n % 256]
  }

  function Zeros(k: nat): (s: seq<Byte>)
    ensures |s| == k
  {
    seq(k, _ => 0)
  }

  /** The padded message, with `bits` in the length field. */
  function Pad(message: seq<Byte>, bits: nat): (s: seq<Byte>)
    ensures |s| % 64 == 0
  {
    message + [0x80] + Zeros(ZeroCount(|message|)) + BigEndian(bits, 8)
  }

  // ----- section 6.2.2: computation

  /** The working variables, and equally the hash value. */
  datatype Vars = Vars(a: Word, b: Word, c: Word, d: Word, e: Word, f: Word, g: Word, h: Word)

  /** Section 5.3.3. */
  const H0: Vars := Vars(0x6a09e667, 0xbb67ae85, 0x3c6ef372, 0xa54ff53a, 0x510e527f, 0x9b05688c, 0x1f83d9ab, 0x5be0cd19)

  type Block = s: seq<Byte> | |s| == 64 witness seq(64, _ => 0)

  /** Section 3.1: four octets as a word, most significant octet first. */
  function Join(b0: int, b1: int, b2: int, b3: int): int {
    0x100_0000 * b0 + 0x1_0000 * b1 + 0x100 * b2 + b3
  }

  function WordAt(m: seq<Byte>, i: nat): Word
    requires i + 4 <= |m|
  {
    Join(m[i], m[i + 1], m[i + 2], m[i + 3])
  }

  function Schedule(m: Block, t: nat): Word {
    if t < 16 then WordAt(m, 4 * t)
    else
      Plus(Plus(Plus(SmallSigma1(Schedule(m, t - 2)), Schedule(m, t - 7)), SmallSigma0(Schedule(m, t - 15))),
           Schedule(m, t - 16))
  }

  function T1(v: Vars, k: Word, w: Word): Word {
    Plus(Plus(Plus(Plus(v.h, BigSigma1(v.e)), Ch(v.e, v.f, v.g)), k), w)
  }

  function T2(v: Vars): Word {
    Plus(BigSigma0(v.a), Maj(v.a, v.b, v.c))
  }

  function Round(v: Vars, k: Word, w: Word): Vars {
    Vars(Plus(T1(v, k, w), T2(v)), v.a, v.b, v.c, Plus(v.d, T1(v, k, w)), v.e, v.f, v.g)
  }

  /** The message schedule of a block. */
  function ScheduleOf(m: Block): (ws: seq<Word>)
    ensures |ws| == 64
  {
    seq(64, t requires 0 <= t < 64 => Schedule(m, t))
  }

  /** The rounds for the first words of a schedule. */
  function Rounds(v: Vars, ws: seq<Word>): Vars
    requires |ws| <= 64
    decreases |ws|, 1
  {
    if ws == [] then v else LastRound(v, ws)
  }

  function LastRound(v: Vars, ws: seq<Word>): Vars
    requires 0 < |ws| <= 64
    decreases |ws|, 0
  {
    var t := |ws| - 1;
    Round(Rounds(v, ws[..t]), K(t), ws[t])
  }

  function Feedback(v: Vars, w: Vars): Vars {
    Vars(Plus(w.a, v.a), Plus(w.b, v.b), Plus(w.c, v.c), Plus(w.d, v.d),
         Plus(w.e, v.e), Plus(w.f, v.f), Plus(w.g, v.g), Plus(w.h, v.h))
  }

  function Compress(h: Vars, m: Block): Vars {
    Feedback(Rounds(h, ScheduleOf(m)), h)
  }

  /** The hash value after all blocks of `data`. */
  function HashBlocks(h: Vars, data: seq<Byte>): Vars
    requires |data| % 64 == 0
    decreases |data|
  {
    if data == [] then h
    else Compress(HashBlocks(h, data[..|data| - 64]), data[|data| - 64..])
  }

  function WordsOf(v: Vars): (s: seq<Word>)
    ensures |s| == 8
  {
    [v.a, v.b, v.c, v.d, v.e, v.f, v.g, v.h]
  }

  /** The digest is the concatenation of the eight words of the hash value. */
  ghost predicate IsDigest(d: seq<Byte>, v: Vars) {
    |d| == 32 && forall i :: 0 <= i < 8 ==> WordAt(d, 4 * i) == WordsOf(v)[i]
  }

  /** `d` is the SHA-256 digest of `message`, which has fewer than 2^64 bits. */
  ghost predicate IsSha256(message: seq<Byte>, d: seq<Byte>)
    requires 8 * |message| < 0x1_0000_0000_0000_0000
  {
    IsDigest(d, HashBlocks(H0, Pad(message, 8 * |message|)))
  }

  /** One round for every word of the schedule, in order. */
  lemma RoundsInTurn(v: Vars, ws: seq<Word>, w: Word)
    requires |ws| < 64
    ensures Rounds(v, []) == v && Rounds(v, ws + [w]) == Round(Rounds(v, ws), K(|ws|), w)
  {
    hide Round, K;
    assert (ws + [w])[..|ws|] == ws;
  }

  /** Section 6.2.2: what the 64 rounds give is added to the hash value, word by word. */
  lemma CompressAdds(h: Vars, m: Block, i: nat)
    requires i < 8
    ensures WordsOf(Compress(h, m))[i] == (WordsOf(Rounds(h, ScheduleOf(m)))[i] + WordsOf(h)[i]) % UINT_RANGE
  {
    hide Rounds, ScheduleOf;
  }

  lemma HashNone(h: Vars)
    ensures HashBlocks(h, []) == h
  {
    hide Compress;
  }

  lemma HashOneMore(h: Vars, data: seq<Byte>, m: Block)
    requires |data| % 64 == 0
    ensures |data + m| % 64 == 0 && HashBlocks(h, data + m) == Compress(HashBlocks(h, data), m)
  {
    hide Compress;
    assert (data + m)[..|data|] == data;
    assert (data + m)[|data|..] == m;
  }

  lemma ZerosAppend(j: nat, k: nat)
    ensures Zeros(j) + Zeros(k) == Zeros(j + k)
  {
  }

  /** When at most 55 octets are left over, the padding ends in the block they start. */
  lemma PadShort(message: seq<Byte>, done: nat, bits: nat)
    requires done <= |message| && done % 64 == 0 && |message| - done <= 55
    ensures Pad(message, bits)
            == message[..done] + (message[done..] + [0x80] + Zeros(55 - (|message| - done)) + BigEndian(bits, 8))
  {
    var left := |message| - done;
    assert |message| % 64 == left;
    assert message == message[..done] + message[done..];
  }

  /** Otherwise the length needs a block of its own. */
  lemma PadLong(message: seq<Byte>, done: nat, bits: nat)
    requires done <= |message| && done % 64 == 0 && 55 < |message| - done < 64
    ensures Pad(message, bits)
            == message[..done] + (message[done..] + [0x80] + Zeros(63 - (|message| - done)))
               + (Zeros(56) + BigEndian(bits, 8))
  {
    var left := |message| - done;
    assert |message| % 64 == left;
    assert message == message[..done] + message[done..];
    ZerosAppend(63 - left, 56);
  }
}
