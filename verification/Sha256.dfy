/** The streaming SHA-256 context of the bundled implementation. */
module Sha256 {
  import opened Arith
  import Bits
  import opened Bytes
  import F = Fips180

  type Word = F.Word

  const BLOCK_SIZE: nat := 64
  const U64_RANGE: nat := 0x1_0000_0000_0000_0000

  // ----- the bit functions

  function Ch(x: Word, y: Word, z: Word): Word { F.Xor(z, F.And(x, F.Xor(y, z))) }

  function Maj(x: Word, y: Word, z: Word): Word { F.Or(F.And(F.Or(x, y), z), F.And(x, y)) }

  /** A rotation to the right, with the amount reduced to its low five bits. */
  function Rot(x: Word, n: Word): Word {
    LowFiveBits(n);
    F.Or(F.Shr(x, F.And(n, 31)), F.Shl(x, 32 - F.And(n, 31)))
  }

  function Sh(x: Word, n: Word): Word { F.Shr(x, n) }

  function Sigma0(x: Word): Word { F.Xor(F.Xor(Rot(x, 2), Rot(x, 13)), Rot(x, 22)) }

  function Sigma1(x: Word): Word { F.Xor(F.Xor(Rot(x, 6), Rot(x, 11)), Rot(x, 25)) }

  function Gamma0(x: Word): Word { F.Xor(F.Xor(Rot(x, 7), Rot(x, 18)), Sh(x, 3)) }

  function Gamma1(x: Word): Word { F.Xor(F.Xor(Rot(x, 17), Rot(x, 19)), Sh(x, 10)) }

  lemma LowFiveBits(n: Word)
    ensures F.And(n, 31) == n % 32
  {
    PowersOfTwo();
    Bits.AndMask(n, 5);
  }

  function Load32(y0: Byte, y1: Byte, y2: Byte, y3: Byte): Word {
    F.Or(F.Or(F.Or(F.Shl(y0, 24), F.Shl(y1, 16)), F.Shl(y2, 8)), F.Shl(y3, 0))
  }

  /** The implementation selects with three operations where the standard has four. */
  lemma ChMatches(x: Word, y: Word, z: Word)
    ensures Ch(x, y, z) == F.Ch(x, y, z)
  {
    PowersOfTwo();
    Bits.ChoiceForms(32, x, y, z);
  }

  lemma MajMatches(x: Word, y: Word, z: Word)
    ensures Maj(x, y, z) == F.Maj(x, y, z)
  {
    Bits.MajorityForms(x, y, z);
  }

  /** Bit `i` of the rotated word is bit `i + n` of the word, counted around. */
  lemma RotMatches(x: Word, n: Word, i: nat)
    requires i < 32
    ensures Bits.Bit(Rot(x, n), i) == Bits.Bit(x, (i + n) % 32)
  {
    hide Bits.Bit, F.Or, F.Shr, F.Shl, F.And;
    LowFiveBits(n);
    F.RotrBits(x, n % 32, i);
  }

  lemma RotIsRotr(x: Word, n: Word)
    requires n < 32
    ensures Rot(x, n) == F.Rotr(x, n)
  {
    hide F.Or, F.Shr, F.Shl, F.And;
    LowFiveBits(n);
  }

  lemma SigmasMatch(x: Word)
    ensures Sigma0(x) == F.BigSigma0(x) && Sigma1(x) == F.BigSigma1(x)
  {
    hide F.Xor, Rot, F.Rotr;
    RotIsRotr(x, 2);
    RotIsRotr(x, 13);
    RotIsRotr(x, 22);
    RotIsRotr(x, 6);
    RotIsRotr(x, 11);
    RotIsRotr(x, 25);
  }

  lemma GammasMatch(x: Word)
    ensures Gamma0(x) == F.SmallSigma0(x) && Gamma1(x) == F.SmallSigma1(x)
  {
    hide F.Xor, Rot, F.Rotr;
    RotIsRotr(x, 7);
    RotIsRotr(x, 18);
    RotIsRotr(x, 17);
    RotIsRotr(x, 19);
  }

  /** Bit by bit: `x` chooses between `y` and `z`. */
  lemma ChBits(x: Word, y: Word, z: Word, i: nat)
    requires i < 32
    ensures Bits.Bit(Ch(x, y, z), i) == if Bits.Bit(x, i) == 1 then Bits.Bit(y, i) else Bits.Bit(z, i)
  {
    hide Bits.Bit, F.And, F.Xor, F.Not;
    F.BitsOfWords(y, z, i);
    F.BitsOfWords(x, F.Xor(y, z), i);
    F.BitsOfWords(z, F.And(x, F.Xor(y, z)), i);
  }

  /** Bit by bit: the majority. */
  lemma MajBits(x: Word, y: Word, z: Word, i: nat)
    requires i < 32
    ensures Bits.Bit(Maj(x, y, z), i) == (Bits.Bit(x, i) + Bits.Bit(y, i) + Bits.Bit(z, i)) / 2
  {
    hide Bits.Bit, F.And, F.Xor, F.Or, F.Not;
    F.BitsOfWords(x, y, i);
    F.BitsOfWords(F.Or(x, y), z, i);
    F.BitsOfWords(F.And(F.Or(x, y), z), F.And(x, y), i);
  }

  /** Bit `i` of an exclusive or of three words is the parity of theirs. */
  lemma ParityBits(x: Word, y: Word, z: Word, i: nat)
    requires i < 32
    ensures Bits.Bit(F.Xor(F.Xor(x, y), z), i) == (Bits.Bit(x, i) + Bits.Bit(y, i) + Bits.Bit(z, i)) % 2
  {
    hide Bits.Bit, F.Xor, F.And, F.Or, F.Not;
    F.BitsOfWords(x, y, i);
    F.BitsOfWords(F.Xor(x, y), z, i);
  }

  /** Bit by bit: each of the two large sigmas is the parity of three bits of the word. */
  lemma SigmaBits(x: Word, i: nat)
    requires i < 32
    ensures Bits.Bit(Sigma0(x), i)
      == (Bits.Bit(x, (i + 2) % 32) + Bits.Bit(x, (i + 13) % 32) + Bits.Bit(x, (i + 22) % 32)) % 2
    ensures Bits.Bit(Sigma1(x), i)
      == (Bits.Bit(x, (i + 6) % 32) + Bits.Bit(x, (i + 11) % 32) + Bits.Bit(x, (i + 25) % 32)) % 2
  {
    hide Bits.Bit, Rot, F.Xor;
    RotMatches(x, 2, i);
    RotMatches(x, 13, i);
    RotMatches(x, 22, i);
    ParityBits(Rot(x, 2), Rot(x, 13), Rot(x, 22), i);
    RotMatches(x, 6, i);
    RotMatches(x, 11, i);
    RotMatches(x, 25, i);
    ParityBits(Rot(x, 6), Rot(x, 11), Rot(x, 25), i);
  }

  /** And each of the two small ones, where the third bit is missing at the top. */
  lemma GammaBits(x: Word, i: nat)
    requires i < 32
    ensures Bits.Bit(Gamma0(x), i) == (Bits.Bit(x, (i + 7) % 32) + Bits.Bit(x, (i + 18) % 32) +
                                       if i < 29 then Bits.Bit(x, i + 3) else 0) % 2
    ensures Bits.Bit(Gamma1(x), i) == (Bits.Bit(x, (i + 17) % 32) + Bits.Bit(x, (i + 19) % 32) +
                                       if i < 22 then Bits.Bit(x, i + 10) else 0) % 2
  {
    hide Bits.Bit, Rot, F.Xor, F.Shr;
    RotMatches(x, 7, i);
    RotMatches(x, 18, i);
    F.ShrBits(x, 3, i);
    ParityBits(Rot(x, 7), Rot(x, 18), Sh(x, 3), i);
    RotMatches(x, 17, i);
    RotMatches(x, 19, i);
    F.ShrBits(x, 10, i);
    ParityBits(Rot(x, 17), Rot(x, 19), Sh(x, 10), i);
  }

  lemma Load32Matches(y0: Byte, y1: Byte, y2: Byte, y3: Byte)
    ensures Load32(y0, y1, y2, y3) == F.Join(y0, y1, y2, y3)
  {
    ShlOctet(y0);
    ShlOctet(y1);
    ShlOctet(y2);
    ShlOctet(y3);
    OrOfBytes(y0, y1, y2, y3);
  }

  lemma ShlOctet(y: Byte)
    ensures F.Shl(y, 24) == 0x100_0000 * y && F.Shl(y, 16) == 0x1_0000 * y &&
            F.Shl(y, 8) == 0x100 * y && F.Shl(y, 0) == y
  {
    PowersOfTwo();
  }

  lemma OrOfBytes(y0: int, y1: int, y2: int, y3: int)
    requires 0 <= y0 < 256 && 0 <= y1 < 256 && 0 <= y2 < 256 && 0 <= y3 < 256
    ensures Bits.Or(Bits.Or(Bits.Or(0x100_0000 * y0, 0x1_0000 * y1), 0x100 * y2), y3) == F.Join(y0, y1, y2, y3)
  {
    hide Bits.Or, Pow2;
    PowersOfTwo();
    Bits.OrIsSum(0x100_0000, 24, y0, 0x1_0000 * y1);
    Bits.OrIsSum(0x1_0000, 16, 0x100 * y0 + y1, 0x100 * y2);
    Bits.OrIsSum(0x100, 8, 0x1_0000 * y0 + 0x100 * y1 + y2, y3);
  }

  // ----- compression

  function VarsOf(s: seq<Word>): F.Vars
    requires |s| == 8
  {
    F.Vars(s[0], s[1], s[2], s[3], s[4], s[5], s[6], s[7])
  }

  /** Reducing the sums on the way is reducing once at the end. */
  lemma PlusReduced(x: nat, a: Word, y: nat, b: Word)
    requires a == x % UINT_RANGE && b == y % UINT_RANGE
    ensures F.Plus(a, b) == (x + y) % UINT_RANGE && F.Plus(b, a) == (x + y) % UINT_RANGE
  {
    var q := x / UINT_RANGE + y / UINT_RANGE;
    F.PlusWraps(a, b);
    F.PlusWraps(b, a);
    assert x + y == UINT_RANGE * q + (a + b);
    hide F.Plus;
    if a + b < UINT_RANGE {
      DivModUnique(x + y, UINT_RANGE, q, a + b);
    } else {
      DivModUnique(x + y, UINT_RANGE, q + 1, a + b - UINT_RANGE);
    }
  }

  lemma PlusFive(a: Word, b: Word, c: Word, d: Word, e: Word)
    ensures F.Plus(F.Plus(F.Plus(F.Plus(a, b), c), d), e) == (a + b + c + d + e) % UINT_RANGE
  {
    var p := F.Plus(a, b);
    PlusReduced(a + b, p, c, c);
    var q := F.Plus(p, c);
    PlusReduced(a + b + c, q, d, d);
    PlusReduced(a + b + c + d, F.Plus(q, d), e, e);
  }

  lemma PlusFour(a: Word, b: Word, c: Word, d: Word)
    ensures F.Plus(F.Plus(F.Plus(a, b), c), d) == (a + b + c + d) % UINT_RANGE
  {
    var p := F.Plus(a, b);
    PlusReduced(a + b, p, c, c);
    PlusReduced(a + b + c, F.Plus(p, c), d, d);
  }

  /** One round, as sums of integers that are reduced once. */
  predicate RoundDone(v: F.Vars, k: Word, w: Word, r: F.Vars) {
    var t0 := v.h + Sigma1(v.e) + Ch(v.e, v.f, v.g) + k + w;
    && r.a == (t0 + Sigma0(v.a) + Maj(v.a, v.b, v.c)) % UINT_RANGE && r.b == v.a && r.c == v.b && r.d == v.c
    && r.e == (t0 + v.d) % UINT_RANGE && r.f == v.e && r.g == v.f && r.h == v.g
  }

  lemma RoundSums(v: F.Vars, k: Word, w: Word, t0: Word, t1: Word)
    requires t0 == F.Plus(F.Plus(F.Plus(F.Plus(v.h, Sigma1(v.e)), Ch(v.e, v.f, v.g)), k), w)
    requires t1 == F.Plus(Sigma0(v.a), Maj(v.a, v.b, v.c))
    ensures RoundDone(v, k, w, F.Vars(F.Plus(t0, t1), v.a, v.b, v.c, F.Plus(v.d, t0), v.e, v.f, v.g))
  {
    hide Ch, Maj, Sigma0, Sigma1, F.Plus;
    var sum := v.h + Sigma1(v.e) + Ch(v.e, v.f, v.g) + k + w;
    PlusFive(v.h, Sigma1(v.e), Ch(v.e, v.f, v.g), k, w);
    PlusTwo(Sigma0(v.a), Maj(v.a, v.b, v.c));
    PlusReduced(sum, t0, Sigma0(v.a) + Maj(v.a, v.b, v.c), t1);
    PlusReduced(sum, t0, v.d, v.d);
  }

  lemma PlusTwo(a: Word, b: Word)
    ensures F.Plus(a, b) == (a + b) % UINT_RANGE
  {
  }

  /** One word of the schedule from four earlier ones. */
  function Expanded(w2: Word, w7: Word, w15: Word, w16: Word): Word {
    (Gamma1(w2) + w7 + Gamma0(w15) + w16) % UINT_RANGE
  }

  lemma ExpandedIs(w2: Word, w7: Word, w15: Word, w16: Word)
    ensures Expanded(w2, w7, w15, w16)
      == F.Plus(F.Plus(F.Plus(F.SmallSigma1(w2), w7), F.SmallSigma0(w15)), w16)
  {
    GammasMatch(w2);
    GammasMatch(w15);
    hide Gamma0, Gamma1, F.SmallSigma0, F.SmallSigma1;
    PlusFour(Gamma1(w2), w7, Gamma0(w15), w16);
    hide F.Plus;
  }

  /** Word `t`: four octets of the block, or the sum over earlier words. */
  predicate ScheduledAt(m: F.Block, w: seq<Word>, t: nat)
    requires t < |w| <= 64
  {
    if t < 16 then w[t] == Load32(m[4 * t], m[4 * t + 1], m[4 * t + 2], m[4 * t + 3])
    else w[t] == Expanded(w[t - 2], w[t - 7], w[t - 15], w[t - 16])
  }

  lemma ScheduleMatches(m: F.Block, t: nat)
    requires t < 64
    ensures ScheduledAt(m, F.ScheduleOf(m), t)
  {
    hide Load32, Expanded, F.Plus, F.SmallSigma0, F.SmallSigma1;
    var w := F.ScheduleOf(m);
    if t < 16 {
      Load32Matches(m[4 * t], m[4 * t + 1], m[4 * t + 2], m[4 * t + 3]);
    } else {
      ExpandedIs(w[t - 2], w[t - 7], w[t - 15], w[t - 16]);
    }
  }

  /** One turn of the compression loop: update two words in place, then rotate all eight by one. */
  method RoundInPlace(s: array<Word>, k: Word, w: Word)
    requires s.Length == 8
    modifies s
    ensures VarsOf(s[..]) == F.Round(VarsOf(old(s[..])), k, w)
    ensures RoundDone(VarsOf(old(s[..])), k, w, VarsOf(s[..]))
  {
    hide Ch, Maj, Sigma0, Sigma1, F.Ch, F.Maj, F.BigSigma0, F.BigSigma1, F.Plus, RoundDone;
    ChMatches(s[4], s[5], s[6]);
    MajMatches(s[0], s[1], s[2]);
    SigmasMatch(s[0]);
    SigmasMatch(s[4]);
    var t0 := F.Plus(F.Plus(F.Plus(F.Plus(s[7], Sigma1(s[4])), Ch(s[4], s[5], s[6])), k), w);
    var t1 := F.Plus(Sigma0(s[0]), Maj(s[0], s[1], s[2]));
    RoundSums(VarsOf(s[..]), k, w, t0, t1);
    s[3] := F.Plus(s[3], t0);
    s[7] := F.Plus(t0, t1);
    var t := s[7];
    s[7] := s[6];
    s[6] := s[5];
    s[5] := s[4];
    s[4] := s[3];
    s[3] := s[2];
    s[2] := s[1];
    s[1] := s[0];
    s[0] := t;
  }

  method FillSchedule(m: F.Block) returns (w: array<Word>)
    ensures fresh(w) && w[..] == F.ScheduleOf(m)
    ensures forall t :: 0 <= t < 64 ==> ScheduledAt(m, w[..], t)
  {
    hide Load32, ScheduledAt;
    w := new Word[64];
    for i := 0 to 16
      invariant forall t :: 0 <= t < i ==> w[t] == F.Schedule(m, t)
    {
      Load32Matches(m[4 * i], m[4 * i + 1], m[4 * i + 2], m[4 * i + 3]);
      w[i] := Load32(m[4 * i], m[4 * i + 1], m[4 * i + 2], m[4 * i + 3]);
    }
    ExpandSchedule(m, w);
    forall t | 0 <= t < 64 ensures ScheduledAt(m, w[..], t) {
      ScheduleMatches(m, t);
    }
  }

  method ExpandSchedule(m: F.Block, w: array<Word>)
    requires w.Length == 64 && forall t :: 0 <= t < 16 ==> w[t] == F.Schedule(m, t)
    modifies w
    ensures w[..] == F.ScheduleOf(m)
  {
    hide Gamma0, Gamma1, F.SmallSigma0, F.SmallSigma1, F.Plus;
    for i := 16 to 64
      invariant forall t :: 0 <= t < i ==> w[t] == F.Schedule(m, t)
    {
      GammasMatch(w[i - 2]);
      GammasMatch(w[i - 15]);
      w[i] := F.Plus(F.Plus(F.Plus(Gamma1(w[i - 2]), w[i - 7]), Gamma0(w[i - 15])), w[i - 16]);
    }
  }

  method RunRounds(s: array<Word>, w: array<Word>)
    requires s.Length == 8 && w.Length == 64 && s != w
    modifies s
    ensures VarsOf(s[..]) == F.Rounds(VarsOf(old(s[..])), w[..])
  {
    hide F.Round, RoundDone;
    ghost var ws := w[..];
    for i := 0 to 64
      invariant VarsOf(s[..]) == F.Rounds(VarsOf(old(s[..])), ws[..i])
      invariant w[..] == ws
    {
      var k := F.K(i);
      RoundInPlace(s, k, w[i]);
      assert ws[..i + 1][..i] == ws[..i];
    }
    assert ws[..64] == ws;
  }

  method CopyState(state: array<Word>) returns (s: array<Word>)
    requires state.Length == 8
    ensures fresh(s) && s.Length == 8 && VarsOf(s[..]) == VarsOf(state[..])
  {
    s := new Word[8];
    forall i | 0 <= i < 8 {
      s[i] := state[i];
    }
  }

  method CompressInPlace(state: array<Word>, m: F.Block)
    requires state.Length == 8
    modifies state
    ensures VarsOf(state[..]) == F.Compress(VarsOf(old(state[..])), m)
  {
    var s := CopyState(state);
    var w := FillSchedule(m);
    RunRounds(s, w);
    AddInPlace(state, s);
  }

  method AddInPlace(state: array<Word>, s: array<Word>)
    requires state.Length == s.Length == 8 && state != s
    modifies state
    ensures VarsOf(state[..]) == F.Feedback(VarsOf(s[..]), VarsOf(old(state[..])))
    ensures forall i :: 0 <= i < 8 ==> state[i] == (old(state[i]) + s[i]) % UINT_RANGE
  {
    for i := 0 to 8
      invariant forall j :: 0 <= j < i ==> state[j] == F.Plus(old(state[j]), s[j])
      invariant forall j :: i <= j < 8 ==> state[j] == old(state[j])
    {
      state[i] := F.Plus(state[i], s[i]);
    }
  }

  // ----- the context

  method InitState(state: array<Word>)
    requires state.Length == 8
    modifies state
    ensures VarsOf(state[..]) == F.H0
  {
    state[0], state[1], state[2], state[3] := 0x6a09e667, 0xbb67ae85, 0x3c6ef372, 0xa54ff53a;
    state[4], state[5], state[6], state[7] := 0x510e527f, 0x9b05688c, 0x1f83d9ab, 0x5be0cd19;
  }

  class Context {
    var length: nat
    var state: array<Word>
    var curlen: nat
    var buf: array<Byte>
    /** Everything absorbed so far. */
    ghost var message: seq<Byte>

    ghost predicate Shape()
      reads this
    {
      state.Length == 8 && buf.Length == BLOCK_SIZE && state as object != buf
    }

    /** `done` octets of the message are in the hash value, the others in the buffer. */
    ghost predicate Absorbed(done: nat)
      requires Shape()
      reads this, state, buf
    {
      && done + curlen == |message| && done % 64 == 0 && curlen <= BLOCK_SIZE
      && buf[..curlen] == message[done..]
      && VarsOf(state[..]) == F.HashBlocks(F.H0, message[..done])
      && length == (8 * done) % U64_RANGE
    }

    ghost predicate Valid()
      reads this, state, buf
    {
      Shape() && curlen < BLOCK_SIZE && curlen <= |message| && Absorbed(|message| - curlen)
    }

    constructor ()
      ensures Valid() && fresh(state) && fresh(buf) && message == []
    {
      hide F.HashBlocks, F.Compress, VarsOf, Context.Absorbed;
      state := new Word[8];
      buf := new Byte[BLOCK_SIZE];
      curlen, length, message := 0, 0, [];
      new;
      InitState(state);
      NothingAbsorbed();
    }

    lemma NothingAbsorbed()
      requires Shape() && curlen == 0 && length == 0 && message == [] && VarsOf(state[..]) == F.H0
      ensures Valid()
    {
      hide F.HashBlocks, F.Compress, VarsOf;
      F.HashNone(F.H0);
      assert message[..0] == [] && buf[..0] == [];
    }

    /** The branch that compresses a block straight from the input. */
    method AbsorbBlock(m: F.Block)
      requires Valid() && curlen == 0
      modifies this`length, this`message, state
      ensures Valid() && message == old(message) + m
    {
      hide F.Compress, F.HashBlocks;
      CompressInPlace(state, m);
      length := (length + BLOCK_SIZE * 8) % U64_RANGE;
      message := message + m;
      F.HashOneMore(F.H0, old(message), m);
      assert message[..|message|] == message && old(message[..|message|]) == old(message);
      LengthStep(|old(message)|);
    }

    /** The branch that goes through the buffer. */
    method AbsorbPart(part: seq<Byte>)
      requires Valid() && curlen + |part| <= BLOCK_SIZE
      modifies this`length, this`message, this`curlen, state, buf
      ensures Valid() && message == old(message) + part
    {
      hide F.Compress, F.HashBlocks;
      ghost var done := |message| - curlen;
      forall i | 0 <= i < |part| {
        buf[curlen + i] := part[i];
      }
      curlen := curlen + |part|;
      message := message + part;
      assert message[..done] == old(message[..done]);
      assert buf[..curlen] == old(buf[..curlen]) + part;
      assert Absorbed(done);
      if curlen == BLOCK_SIZE {
        FlushFullBuffer(done);
      }
    }

    method FlushFullBuffer(ghost done: nat)
      requires Shape() && Absorbed(done) && curlen == BLOCK_SIZE
      modifies this`length, this`curlen, state
      ensures Valid() && message == old(message)
    {
      hide F.Compress, F.HashBlocks;
      ghost var m := message[done..];
      F.HashOneMore(F.H0, message[..done], m);
      assert message[..done] + m == message == message[..|message|];
      assert buf[..] == m;
      CompressInPlace(state, buf[..]);
      length := (length + 8 * BLOCK_SIZE) % U64_RANGE;
      curlen := 0;
      LengthStep(done);
    }

    /** Absorbs `src`, whole blocks straight from the input whenever the buffer is empty. */
    method Process(src: seq<Byte>)
      requires Valid()
      modifies this`length, this`message, this`curlen, state, buf
      ensures Valid() && message == old(message) + src
    {
      hide F.HashBlocks, Context.Absorbed, Context.Shape;
      var off := 0;
      while off < |src|
        invariant off <= |src|
        invariant Valid() && message == old(message) + src[..off]
      {
        if curlen == 0 && |src| - off >= BLOCK_SIZE {
          var block := src[off..off + BLOCK_SIZE];
          assert |block| == 64 && src[..off + BLOCK_SIZE] == src[..off] + block;
          AbsorbBlock(block);
          off := off + BLOCK_SIZE;
        } else {
          var n := Min(|src| - off, BLOCK_SIZE - curlen);
          var part := src[off..off + n];
          assert |part| == n && src[..off + n] == src[..off] + part;
          AbsorbPart(part);
          off := off + n;
        }
      }
      assert src[..off] == src;
    }

    /** sha256_update: the length is narrowed to 32 bits on the way in. */
    method Update(data: seq<Byte>)
      requires Valid()
      modifies this`length, this`message, this`curlen, state, buf
      ensures Valid() && message == old(message) + data[..|data| % UINT_RANGE]
      ensures |data| < UINT_RANGE ==> message == old(message) + data
    {
      if |data| < UINT_RANGE {
        assert |data| % UINT_RANGE == |data| && data[..|data|] == data;
      }
      Process(data[..|data| % UINT_RANGE]);
    }

    /** Fills the buffer with zeros up to `limit`. */
    method FillZeros(limit: nat)
      requires Shape() && curlen <= limit <= BLOCK_SIZE
      modifies this`curlen, buf
      ensures curlen == limit
      ensures buf[..limit] == old(buf[..curlen]) + F.Zeros(limit - old(curlen))
    {
      while curlen < limit
        invariant old(curlen) <= curlen <= limit
        invariant buf[..curlen] == old(buf[..curlen]) + F.Zeros(curlen - old(curlen))
      {
        buf[curlen] := 0;
        curlen := curlen + 1;
        assert buf[..curlen] == buf[..curlen - 1] + [0];
      }
    }

    /** store64 at octet 56. */
    method StoreLength()
      requires Shape() && length < U64_RANGE
      modifies buf
      ensures buf[..] == old(buf[..56]) + F.BigEndian(length, 8)
    {
      for i := 0 to 8
        invariant buf[..56] == old(buf[..56])
        invariant forall j :: 56 <= j < 56 + i ==> buf[j] == OctetOf(length, j - 56)
      {
        buf[56 + i] := OctetOf(length, i);
      }
      forall j | 0 <= j < 8 ensures buf[56 + j] == F.BigEndian(length, 8)[j] {
        BigEndianAt(length, 8, j);
      }
      assert buf[..] == buf[..56] + buf[56..];
    }

    /** Puts the marker octet behind the message. */
    method Mark()
      requires Shape() && curlen < BLOCK_SIZE
      modifies this`curlen, buf
      ensures curlen == old(curlen) + 1 && buf[..curlen] == old(buf[..curlen]) + [0x80]
    {
      buf[curlen] := 0x80;
      curlen := curlen + 1;
    }

    /** The first half of sha_done: marker, zeros, length. */
    method PadAndCompress()
      requires Valid()
      modifies this`length, this`curlen, state, buf
      ensures Shape() && message == old(message)
      ensures VarsOf(state[..]) == F.HashBlocks(F.H0, F.Pad(message, (8 * |message|) % U64_RANGE))
    {
      hide F.HashBlocks, F.Pad, F.Zeros, F.BigEndian;
      ghost var done, tail := |message| - curlen, message[|message| - curlen..];
      ghost var bits := (8 * |message|) % U64_RANGE;
      length := (length + curlen * 8) % U64_RANGE;
      FinalLength(done, curlen);
      Mark();
      if curlen > 56 {
        F.PadLong(message, done, bits);
        FillZeros(64);
        F.HashOneMore(F.H0, message[..done], buf[..]);
        assert buf[..] == buf[..64];
        CompressInPlace(state, buf[..]);
        curlen := 0;
        FinalBlock(message[..done] + (tail + [0x80] + F.Zeros(63 - |tail|)), []);
        assert [] + F.Zeros(56) == F.Zeros(56);
      } else {
        F.PadShort(message, done, bits);
        FinalBlock(message[..done], tail + [0x80]);
      }
    }

    /** Zeros up to the length field, the length, and the last compression. */
    method FinalBlock(ghost before: seq<Byte>, ghost head: seq<Byte>)
      requires Shape() && curlen <= 56 && length < U64_RANGE
      requires buf[..curlen] == head && |before| % 64 == 0
      requires VarsOf(state[..]) == F.HashBlocks(F.H0, before)
      modifies this`curlen, state, buf
      ensures Shape()
      ensures var block := head + F.Zeros(56 - |head|) + F.BigEndian(length, 8);
              VarsOf(state[..]) == F.HashBlocks(F.H0, before + block)
    {
      hide F.HashBlocks, F.BigEndian;
      FillZeros(56);
      StoreLength();
      F.HashOneMore(F.H0, before, buf[..]);
      CompressInPlace(state, buf[..]);
    }

    /** store32 of the eight state words. */
    method Output() returns (out: seq<Byte>)
      requires Shape()
      ensures F.IsDigest(out, VarsOf(state[..]))
    {
      var a := new Byte[32];
      for i := 0 to 8
        invariant forall j :: 0 <= j < i ==> F.WordAt(a[..], 4 * j) == state[j]
      {
        ghost var before := a[..];
        Store32(a, i, state[i]);
        forall j | 0 <= j < i ensures F.WordAt(a[..], 4 * j) == state[j] {
          assert F.WordAt(before, 4 * j) == state[j];
        }
      }
      out := a[..];
    }

    /** sha256_finish. */
    method Finish() returns (digest: seq<Byte>)
      requires Valid()
      modifies this`length, this`curlen, state, buf
      ensures message == old(message)
      ensures F.IsDigest(digest, F.HashBlocks(F.H0, F.Pad(message, (8 * |message|) % U64_RANGE)))
      ensures 8 * |message| < U64_RANGE ==> F.IsSha256(message, digest)
    {
      hide F.HashBlocks, F.Pad, F.IsDigest, Context.Absorbed, VarsOf;
      PadAndCompress();
      digest := Output();
    }
  }

  method Store32(a: array<Byte>, i: nat, x: Word)
    requires a.Length == 32 && i < 8
    modifies a
    ensures F.WordAt(a[..], 4 * i) == x
    ensures forall k :: 0 <= k < 32 && !(4 * i <= k < 4 * i + 4) ==> a[k] == old(a[k])
  {
    for j := 0 to 4
      invariant forall k :: 4 * i <= k < 4 * i + j ==> a[k] == OctetOf32(x, k - 4 * i)
      invariant forall k :: 0 <= k < 32 && !(4 * i <= k < 4 * i + j) ==> a[k] == old(a[k])
    {
      a[4 * i + j] := OctetOf32(x, j);
    }
    WordOfOctets(x);
  }

  function OctetOf32(x: Word, j: nat): Byte
    requires j < 4
  {
    F.Shr(x, (3 - j) * 8) % 256
  }

  lemma WordOfOctets(x: Word)
    ensures F.Join(OctetOf32(x, 0), OctetOf32(x, 1), OctetOf32(x, 2), OctetOf32(x, 3)) == x
  {
    hide Pow2;
    PowersOfTwo();
    DivDiv(x, 0x100, 0x100);
    DivDiv(x, 0x100, 0x1_0000);
    DivDiv(x / 0x100, 0x100, 0x100);
    var x1, x2, x3 := x / 0x100, x / 0x1_0000, x / 0x100_0000;
    assert OctetOf32(x, 0) == x3 % 256 && OctetOf32(x, 1) == x2 % 256;
    assert OctetOf32(x, 2) == x1 % 256 && OctetOf32(x, 3) == x % 256;
    hide OctetOf32;
    OctetsSum(x, x1, x2, x3);
  }

  lemma OctetsSum(x: Word, x1: nat, x2: nat, x3: nat)
    requires x1 == x / 256 && x2 == x1 / 256 && x3 == x2 / 256
    ensures F.Join(x3 % 256, x2 % 256, x1 % 256, x % 256) == x
  {
  }

  lemma FinalLength(done: nat, curlen: nat)
    ensures ((8 * done) % U64_RANGE + curlen * 8) % U64_RANGE == (8 * (done + curlen)) % U64_RANGE
  {
  }

  /** Octet `i` of a 64-bit number, most significant first. */
  function OctetOf(x: nat, i: nat): Byte
    requires i < 8
  {
    Bits.Shr(x, (7 - i) * 8) % 256
  }

  lemma LengthStep(done: nat)
    ensures ((8 * done) % U64_RANGE + 512) % U64_RANGE == (8 * (done + 64)) % U64_RANGE
  {
  }

  /** Octet `j` of a big-endian number is found by shifting. */
  lemma {:induction false} BigEndianAt(n: nat, k: nat, j: nat)
    requires j < k
    ensures F.BigEndian(n, k)[j] == Bits.Shr(n, (k - 1 - j) * 8) % 256
  {
    var s := (k - 1 - j) * 8;
    if j == k - 1 {
      assert Pow2(0) == 1;
    } else {
      BigEndianAt(n / 256, k - 1, j);
      ShiftByOctet(n, s - 8);
    }
  }

  lemma ShiftByOctet(n: nat, s: nat)
    ensures Bits.Shr(n / 256, s) == Bits.Shr(n, s + 8)
  {
    Pow2Plus8(s);
    DivDiv(n, 256, Pow2(s));
  }

  lemma Pow2Plus8(s: nat)
    ensures Pow2(s + 8) == 256 * Pow2(s)
  {
    assert Pow2(s + 2) == 4 * Pow2(s);
    assert Pow2(s + 4) == 16 * Pow2(s);
    assert Pow2(s + 6) == 64 * Pow2(s);
  }

  /** However a message is cut into updates, the digest is that of the whole. */
  method HashPieces(pieces: seq<seq<Byte>>) returns (digest: seq<Byte>)
    requires forall i :: 0 <= i < |pieces| ==> |pieces[i]| < UINT_RANGE
    requires 8 * |Flatten(pieces)| < U64_RANGE
    ensures F.IsSha256(Flatten(pieces), digest)
  {
    hide Context.Absorbed, F.IsSha256, F.HashBlocks, F.Pad;
    var context := new Context();
    for i := 0 to |pieces|
      invariant context.Valid() && fresh(context) && fresh(context.state) && fresh(context.buf)
      invariant context.message == Flatten(pieces[..i])
    {
      context.Update(pieces[i]);
      assert pieces[..i + 1] == pieces[..i] + [pieces[i]];
      FlattenAppend(pieces[..i], pieces[i]);
    }
    assert pieces[..|pieces|] == pieces;
    digest := context.Finish();
  }
}
