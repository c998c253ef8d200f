/** Base64 encoding and strict decoding, against RFC 4648. */
module Base64 {
  import opened Arith
  import Bits
  import opened Bytes

  /** RFC 4648, Table 1; the code spells it out as a string of 64 digits. */
  function Alphabet(v: nat): (c: char)
    requires v < 64
    ensures c != '=' && c != '\0'
  {
    if v < 26 then ('A' as int + v) as char
    else if v < 52 then ('a' as int + (v - 26)) as char
    else if v < 62 then ('0' as int + (v - 52)) as char
    else if v == 62 then '+'
    else '/'
  }

  /** base64_digit_value. */
  function DigitValue(digit: char): (d: int)
    ensures -1 <= d < 64
    ensures d >= 0 ==> Alphabet(d) == digit
  {
    if 'A' <= digit <= 'Z' then digit as int - 'A' as int
    else if 'a' <= digit <= 'z' then digit as int - 'a' as int + 26
    else if '0' <= digit <= '9' then digit as int - '0' as int + 52
    else if digit == '+' then 62
    else if digit == '/' then 63
    else -1
  }

  const UPPER := "ABCDEFGHIJKLMNOPQRSTUVWXYZ"
  const LOWER := "abcdefghijklmnopqrstuvwxyz"
  const DECIMAL := "0123456789"

  /** The string of digits in the code. */
  const DIGITS: string := UPPER + LOWER + DECIMAL + "+/"

  lemma AlphabetIsTable(v: nat)
    requires v < 64
    ensures |DIGITS| == 64 && DIGITS[v] == Alphabet(v)
  {
    if v < 26 {
      UpperDigits(v);
    } else if v < 52 {
      LowerDigits(v - 26);
    } else if v < 62 {
      DecimalDigits(v - 52);
    }
  }

  lemma UpperDigits(v: nat)
    requires v < 26
    ensures UPPER[v] as int == 'A' as int + v
  {
  }

  lemma LowerDigits(v: nat)
    requires v < 26
    ensures LOWER[v] as int == 'a' as int + v
  {
  }

  lemma DecimalDigits(v: nat)
    requires v < 10
    ensures DECIMAL[v] as int == '0' as int + v
  {
  }

  /** A character has a value exactly if it is in the table. */
  lemma ValueOfDigit(c: char)
    ensures DigitValue(c) >= 0 <==> c in DIGITS
  {
    hide DIGITS, Alphabet;
    if DigitValue(c) >= 0 {
      AlphabetIsTable(DigitValue(c));
    }
    if c in DIGITS {
      AlphabetIsTable(0);
      var v: nat :| v < |DIGITS| && DIGITS[v] == c;
      AlphabetIsTable(v);
      DigitValueOfAlphabet(v);
    }
  }

  lemma DigitValueOfAlphabet(v: nat)
    requires v < 64
    ensures DigitValue(Alphabet(v)) == v
  {
  }

  // ----- RFC 4648, section 4

  function OctetOrZero(x: seq<Byte>, i: nat): nat {
    if i < |x| then x[i] else 0
  }

  /** The four groups of six bits in three octets. */
  function SixBits(b0: nat, b1: nat, b2: nat, k: nat): (v: nat)
    requires b0 < 256 && b1 < 256 && b2 < 256 && k < 4
    ensures v < 64
  {
    if k == 0 then b0 / 4
    else if k == 1 then b0 % 4 * 16 + b1 / 16
    else if k == 2 then b1 % 16 * 4 + b2 / 64
    else b2 % 64
  }

  /** Put side by side they are the 24 bits of the octets. */
  lemma SixBitsJoin(b0: nat, b1: nat, b2: nat)
    requires b0 < 256 && b1 < 256 && b2 < 256
    ensures SixBits(b0, b1, b2, 0) * 0x4_0000 + SixBits(b0, b1, b2, 1) * 0x1000 +
            SixBits(b0, b1, b2, 2) * 0x40 + SixBits(b0, b1, b2, 3) == b0 * 0x1_0000 + b1 * 0x100 + b2
  {
  }

  /** The `k`-th group of six bits, zero bits standing in for missing octets. */
  function Sextet(x: seq<Byte>, k: nat): (v: nat)
    ensures v < 64
  {
    var i := k / 4 * 3;
    SixBits(OctetOrZero(x, i), OctetOrZero(x, i + 1), OctetOrZero(x, i + 2), k % 4)
  }

  /** Up to three octets as four characters. */
  function EncodedGroup(g: seq<Byte>): (c: string)
    requires 1 <= |g| <= 3
    ensures |c| == 4
  {
    [Alphabet(Sextet(g, 0)),
     Alphabet(Sextet(g, 1)),
     if |g| >= 2 then Alphabet(Sextet(g, 2)) else '=',
     if |g| == 3 then Alphabet(Sextet(g, 3)) else '=']
  }

  function Encoded(x: seq<Byte>): string {
    if x == [] then ""
    else if |x| <= 3 then EncodedGroup(x)
    else EncodedGroup(x[..3]) + Encoded(x[3..])
  }

  lemma {:induction false} EncodedLength(x: seq<Byte>)
    ensures |Encoded(x)| == (|x| + 2) / 3 * 4
  {
    hide EncodedGroup;
    if |x| > 3 {
      EncodedLength(x[3..]);
    }
  }

  // ----- the same text digit by digit

  /** How many digits come before the padding. */
  function DigitCount(n: nat): nat {
    (4 * n + 2) / 3
  }

  lemma {:induction false} EncodedAt(x: seq<Byte>, k: nat)
    requires k < |Encoded(x)|
    ensures Encoded(x)[k] == if k < DigitCount(|x|) then Alphabet(Sextet(x, k)) else '='
    decreases |x|
  {
    hide Alphabet, SixBits;
    EncodedLength(x);
    if |x| > 3 {
      if k < 4 {
        assert Sextet(x, k) == Sextet(x[..3], k);
      } else {
        EncodedAt(x[3..], k - 4);
        assert Sextet(x, k) == Sextet(x[3..], k - 4);
      }
    }
  }

  // ----- the encoder

  /** `(value << 8) | octet` in 32-bit arithmetic. */
  function Loaded(value: nat, octet: Byte): nat {
    Bits.Or(Bits.Shl(value, 8) % UINT_RANGE, octet)
  }

  lemma LoadedWrap(value: nat, octet: Byte) returns (t: int)
    ensures Loaded(value, octet) == 256 * value + octet - UINT_RANGE * t
  {
    hide Bits.Or;
    PowersOfTwo();
    t := value / 0x100_0000;
    var low := value % 0x100_0000;
    DivModUnique(256 * value, UINT_RANGE, t, 256 * low);
    Bits.OrIsSum(256, 8, low, octet);
  }

  lemma LoadedAfter0(value: nat, octet: Byte)
    ensures var w := Loaded(value, octet); w / 4 % 64 == octet / 4 && w % 4 == octet % 4
  {
    hide Loaded;
    var t := LoadedWrap(value, octet);
    var high, d := value - 0x100_0000 * t, octet / 4;
    DivModUnique(Loaded(value, octet), 4, high * 64 + d, octet % 4);
    DivModUnique(high * 64 + d, 64, high, d);
  }

  lemma LoadedAfter2(value: nat, octet: Byte)
    ensures var w := Loaded(value, octet); w / 16 % 64 == value % 4 * 16 + octet / 16 && w % 16 == octet % 16
  {
    hide Loaded;
    var t := LoadedWrap(value, octet);
    var high, d := value / 4 - 0x40_0000 * t, value % 4 * 16 + octet / 16;
    DivModUnique(Loaded(value, octet), 16, high * 64 + d, octet % 16);
    DivModUnique(high * 64 + d, 64, high, d);
  }

  lemma LoadedAfter4(value: nat, octet: Byte)
    ensures var w := Loaded(value, octet); w / 64 % 64 == value % 16 * 4 + octet / 64 && w % 64 == octet % 64
  {
    hide Loaded;
    var t := LoadedWrap(value, octet);
    var high, d := value / 16 - 0x10_0000 * t, value % 16 * 4 + octet / 64;
    DivModUnique(Loaded(value, octet), 64, high * 64 + d, octet % 64);
    DivModUnique(high * 64 + d, 64, high, d);
  }

  /** The bits of `value` still to be emitted after `o` digits, `i` octets having been loaded. */
  predicate Pending(x: seq<Byte>, o: nat, i: nat, numBits: int, value: nat) {
    var r := o % 4;
    && i <= |x|
    && (o < DigitCount(|x|) ==>
          && i == o / 4 * 3 + r && numBits == 2 * r
          && (r == 1 ==> value % 4 == x[i - 1] % 4)
          && (r == 2 ==> value % 16 == x[i - 1] % 16)
          && (r == 3 ==> value % 64 == x[i - 1] % 64))
    && (o >= DigitCount(|x|) ==> i == |x| && numBits <= 0)
  }

  /** `x & 0x3f`. */
  function Low6(x: nat): (d: nat)
    ensures d == x % 64
  {
    PowersOfTwo();
    Bits.AndMask(x, 6);
    Bits.And(x, 0x3f)
  }

  /** The next six bits: `(value >> (n - 6)) & 0x3f`, or `(value << (6 - n)) & 0x3f` when fewer are left. */
  function Taken(value: nat, numBits: int): (d: nat)
    requires numBits > 0
    ensures d < 64
  {
    if numBits >= 6 then Low6(Bits.Shr(value, numBits - 6))
    else Low6(Bits.Shl(value, 6 - numBits) % UINT_RANGE)
  }

  lemma TakenValues(value: nat)
    ensures Taken(value, 6) == value % 64 && Taken(value, 8) == value / 4 % 64
    ensures Taken(value, 10) == value / 16 % 64 && Taken(value, 12) == value / 64 % 64
    ensures Taken(value, 2) == value % 4 * 16 && Taken(value, 4) == value % 16 * 4
  {
    hide Low6;
    assert Pow2(0) == 1 && Pow2(2) == 4 && Pow2(4) == 16 && Pow2(6) == 64;
    ShiftedUp(value, 4, 16);
    ShiftedUp(value, 16, 4);
  }

  lemma ShiftedUp(value: nat, m: nat, n: nat)
    requires (m == 4 && n == 16) || (m == 16 && n == 4)
    ensures value * n % UINT_RANGE % 64 == value % m * n
  {
    var w := value * n % UINT_RANGE;
    var t := value * n / UINT_RANGE;
    var q := value / m - 0x400_0000 * t;
    assert w == value * n - UINT_RANGE * t;
    if m == 4 {
      assert value == value / 4 * 4 + value % 4;
    } else {
      assert value == value / 16 * 16 + value % 16;
    }
    assert w == q * 64 + value % m * n;
    DivModUnique(w, 64, q, value % m * n);
  }

  /** One digit of the loop: an octet is loaded if fewer than six bits are left, then six bits are taken. */
  ghost predicate StepDone(x: seq<Byte>, o: nat, i: nat, numBits: int, value: nat)
    requires i <= |x|
  {
    var load := numBits < 6 && i < |x|;
    var v := if load then Loaded(value, x[i]) else value;
    var nb := if load then numBits + 8 else numBits;
    && nb > 0
    && Taken(v, nb) == Sextet(x, o)
    && Pending(x, o + 1, if load then i + 1 else i, nb - 6, v)
  }

  lemma DigitStep(x: seq<Byte>, o: nat, i: nat, numBits: int, value: nat)
    requires o < DigitCount(|x|) && Pending(x, o, i, numBits, value)
    ensures StepDone(x, o, i, numBits, value)
  {
    hide Pending, StepDone;
    if o % 4 == 0 {
      DigitStep0(x, o, i, numBits, value);
    } else if o % 4 == 1 {
      DigitStep1(x, o, i, numBits, value);
    } else if o % 4 == 2 {
      DigitStep2(x, o, i, numBits, value);
    } else {
      DigitStep3(x, o, i, numBits, value);
    }
  }

  lemma DigitStep3(x: seq<Byte>, o: nat, i: nat, numBits: int, value: nat)
    requires o < DigitCount(|x|) && o % 4 == 3 && Pending(x, o, i, numBits, value)
    ensures StepDone(x, o, i, numBits, value)
  {
    hide Taken, Loaded;
    TakenValues(value);
  }

  lemma DigitStep0(x: seq<Byte>, o: nat, i: nat, numBits: int, value: nat)
    requires o < DigitCount(|x|) && o % 4 == 0 && Pending(x, o, i, numBits, value)
    ensures StepDone(x, o, i, numBits, value)
  {
    hide Taken, Loaded;
    LoadedAfter0(value, x[i]);
    TakenValues(Loaded(value, x[i]));
  }

  lemma DigitStep1(x: seq<Byte>, o: nat, i: nat, numBits: int, value: nat)
    requires o < DigitCount(|x|) && o % 4 == 1 && Pending(x, o, i, numBits, value)
    ensures StepDone(x, o, i, numBits, value)
  {
    hide Taken, Loaded;
    if i < |x| {
      LoadedAfter2(value, x[i]);
      TakenValues(Loaded(value, x[i]));
    } else {
      TakenValues(value);
    }
  }

  lemma DigitStep2(x: seq<Byte>, o: nat, i: nat, numBits: int, value: nat)
    requires o < DigitCount(|x|) && o % 4 == 2 && Pending(x, o, i, numBits, value)
    ensures StepDone(x, o, i, numBits, value)
  {
    hide Taken, Loaded;
    if i < |x| {
      LoadedAfter4(value, x[i]);
      TakenValues(Loaded(value, x[i]));
    } else {
      TakenValues(value);
    }
  }

  /** str_base64: the text, cut off at `dstSize - 1` characters, and a terminator. */
  method Encode(dst: array<char>, dstSize: nat, data: seq<Byte>)
    requires 1 <= dstSize <= dst.Length
    modifies dst
    ensures var n := Min(|Encoded(data)|, dstSize - 1); dst[..n] == Encoded(data)[..n] && dst[n] == '\0'
  {
    hide Encoded, Pending, Taken, Sextet, Loaded, DIGITS, Alphabet;
    EncodedLength(data);
    var value: nat, numBits, i, o := 0, 0, 0, 0;
    var limit := dstSize - 1;
    dst[limit] := '\0';
    PendingAtStart(data);
    while true
      invariant o <= limit && o <= |Encoded(data)|
      invariant dst[limit] == '\0'
      invariant forall k :: 0 <= k < o ==> dst[k] == Encoded(data)[k]
      invariant Pending(data, o, i, numBits, value)
      invariant i <= |data|
      decreases limit - o
    {
      ghost var before := (i, numBits, value);
      if numBits < 6 && i < |data| {
        value := Loaded(value, data[i]);
        numBits := numBits + 8;
        i := i + 1;
      }
      if o == limit {
        return;
      }
      PhaseOf(data, o, before.0, before.1, before.2);
      if numBits > 0 {
        DigitStep(data, o, before.0, before.1, before.2);
        EncodedAt(data, o);
        var padded := Taken(value, numBits);
        AlphabetIsTable(padded);
        dst[o] := DIGITS[padded];
        numBits := numBits - 6;
        o := o + 1;
      } else if o % 4 != 0 {
        EncodedAt(data, o);
        dst[o] := '=';
        o := o + 1;
        StillPadding(data, o - 1, before.0, before.1, before.2);
      } else {
        dst[o] := '\0';
        return;
      }
    }
  }

  lemma PendingAtStart(x: seq<Byte>)
    ensures Pending(x, 0, 0, 0, 0)
  {
  }

  /** Bits are left exactly while digits are; and the text ends at a multiple of four. */
  lemma PhaseOf(x: seq<Byte>, o: nat, i: nat, numBits: int, value: nat)
    requires Pending(x, o, i, numBits, value) && o <= |Encoded(x)|
    ensures (if numBits < 6 && i < |x| then numBits + 8 else numBits) > 0 <==> o < DigitCount(|x|)
    ensures o < DigitCount(|x|) ==> o < |Encoded(x)|
    ensures o >= DigitCount(|x|) ==> (o % 4 == 0 <==> o == |Encoded(x)|) && !(numBits < 6 && i < |x|)
  {
    EncodedLength(x);
    hide Encoded, OctetOrZero, Sextet;
    assert |x| == 3 * (|x| / 3) + |x| % 3;
  }

  lemma StillPadding(x: seq<Byte>, o: nat, i: nat, numBits: int, value: nat)
    requires Pending(x, o, i, numBits, value) && o >= DigitCount(|x|)
    ensures Pending(x, o + 1, i, numBits, value)
  {
  }

  // ----- the decoder

  datatype Outcome = Ok(bytes: seq<Byte>) | Fail(code: int)

  /** The three octets of a 24-bit number. */
  function ByteOf(value: nat, b: nat): Byte
    requires b < 3
  {
    if b == 0 then value / 0x1_0000 % 256 else if b == 1 then value / 0x100 % 256 else value % 256
  }

  /** `(value >> (16 - 8 * b)) & 0xff`. */
  function ShiftedByte(value: nat, b: nat): nat
    requires b < 3
  {
    Bits.And(Bits.Shr(value, 16 - 8 * b), 0xff)
  }

  lemma ShiftedByteIs(value: nat, b: nat)
    requires b < 3
    ensures ShiftedByte(value, b) == ByteOf(value, b)
  {
    hide Bits.And, Pow2;
    PowersOfTwo();
    Bits.AndMask(Bits.Shr(value, 16 - 8 * b), 8);
  }

  /** `(d0 << 18) | (d1 << 12) | (d2 << 6) | d3`. */
  function Assembled(d0: nat, d1: nat, d2: nat, d3: nat): nat {
    Bits.Or(Bits.Or(Bits.Or(Bits.Shl(d0, 18), Bits.Shl(d1, 12)), Bits.Shl(d2, 6)), d3)
  }

  lemma AssembledIsSum(d0: nat, d1: nat, d2: nat, d3: nat)
    requires d0 < 64 && d1 < 64 && d2 < 64 && d3 < 64
    ensures Assembled(d0, d1, d2, d3) == d0 * 0x4_0000 + d1 * 0x1000 + d2 * 64 + d3
  {
    hide Bits.Or;
    PowersOfTwo();
    assert Pow2(18) == 0x4_0000 && Pow2(12) == 0x1000 && Pow2(6) == 64;
    Bits.OrIsSum(0x4_0000, 18, d0, d1 * 0x1000);
    Bits.OrIsSum(0x1000, 12, d0 * 64 + d1, d2 * 64);
    Bits.OrIsSum(64, 6, d0 * 0x1000 + d1 * 64 + d2, d3);
  }

  /** How many padding characters end a group; only the last group may have any. */
  function Padding(c: string, last: bool): nat
    requires |c| == 4
  {
    if last && c[3] == '=' then (if c[2] == '=' then 2 else 1) else 0
  }

  function GroupDigit(c: string, last: bool, k: nat): (d: int)
    requires |c| == 4 && k < 4
    ensures -1 <= d < 64
  {
    if k >= 4 - Padding(c, last) then DigitValue('A') else DigitValue(c[k])
  }

  function GroupValue(c: string, last: bool): nat
    requires |c| == 4 && !BadDigit(c, last)
  {
    GroupDigit(c, last, 0) * 0x4_0000 + GroupDigit(c, last, 1) * 0x1000
    + GroupDigit(c, last, 2) * 64 + GroupDigit(c, last, 3)
  }

  predicate BadDigit(c: string, last: bool)
    requires |c| == 4
  {
    exists k :: 0 <= k < 4 && GroupDigit(c, last, k) == -1
  }

  /** What the decoder makes of one group of four characters. */
  function GroupOutcome(c: string, last: bool): Outcome
    requires |c| == 4
  {
    if BadDigit(c, last) then Fail(-1)
    else
      var v := GroupValue(c, last);
      var n := 3 - Padding(c, last);
      if exists b :: n <= b < 3 && ByteOf(v, b) != 0 then Fail(-2)
      else Ok([ByteOf(v, 0), ByteOf(v, 1), ByteOf(v, 2)][..n])
  }

  lemma FourLess(n: nat)
    requires n % 4 == 0 && n > 0
    ensures n >= 4 && (n - 4) % 4 == 0
  {
  }

  /** What it makes of a text: the bytes, or the error of the first bad group. */
  function Decoded(s: string): Outcome
    requires |s| % 4 == 0
  {
    if s == "" then Ok([])
    else
      hide GroupOutcome;
      FourLess(|s|);
      var first := GroupOutcome(s[..4], |s| == 4);
      if first.Fail? then first
      else
        var rest := Decoded(s[4..]);
        if rest.Fail? then rest else Ok(first.bytes + rest.bytes)
  }

  lemma BytesOfDigits(d0: nat, d1: nat, d2: nat, d3: nat)
    requires d0 < 64 && d1 < 64 && d2 < 64 && d3 < 64
    ensures var v := d0 * 0x4_0000 + d1 * 0x1000 + d2 * 64 + d3;
            && ByteOf(v, 0) == d0 * 4 + d1 / 16
            && ByteOf(v, 1) == d1 % 16 * 16 + d2 / 4
            && ByteOf(v, 2) == d2 % 4 * 64 + d3
  {
    hide ByteOf;
    var v := d0 * 0x4_0000 + d1 * 0x1000 + d2 * 64 + d3;
    var b0, b1, b2 := d0 * 4 + d1 / 16, d1 % 16 * 16 + d2 / 4, d2 % 4 * 64 + d3;
    assert d1 == 16 * (d1 / 16) + d1 % 16 && d2 == 4 * (d2 / 4) + d2 % 4;
    BytesOfSum(v, b0, b1, b2);
  }

  lemma BytesOfSum(v: nat, b0: nat, b1: nat, b2: nat)
    requires b0 < 256 && b1 < 256 && b2 < 256 && v == b0 * 0x1_0000 + b1 * 0x100 + b2
    ensures ByteOf(v, 0) == b0 && ByteOf(v, 1) == b1 && ByteOf(v, 2) == b2
  {
    DivModUnique(v, 65536, b0, b1 * 256 + b2);
    DivModUnique(v, 256, b0 * 256 + b1, b2);
    DivModUnique(b0 * 256 + b1, 256, b0, b1);
  }

  /** Four groups of six bits and three octets determine each other. */
  lemma Regrouped(b0: nat, b1: nat, b2: nat, d0: nat, d1: nat, d2: nat, d3: nat)
    requires b0 < 256 && b1 < 256 && b2 < 256 && d0 < 64 && d1 < 64 && d2 < 64 && d3 < 64
    ensures b0 == d0 * 4 + d1 / 16 && b1 == d1 % 16 * 16 + d2 / 4 && b2 == d2 % 4 * 64 + d3
      <==> d0 == SixBits(b0, b1, b2, 0) && d1 == SixBits(b0, b1, b2, 1)
           && d2 == SixBits(b0, b1, b2, 2) && d3 == SixBits(b0, b1, b2, 3)
  {
    if b0 == d0 * 4 + d1 / 16 && b1 == d1 % 16 * 16 + d2 / 4 && b2 == d2 % 4 * 64 + d3 {
      OctetsToSixBits(b0, b1, b2, d0, d1, d2, d3);
    } else {
      SixBitsToOctets(b0, b1, b2);
    }
  }

  lemma OctetsToSixBits(b0: nat, b1: nat, b2: nat, d0: nat, d1: nat, d2: nat, d3: nat)
    requires b0 < 256 && b1 < 256 && b2 < 256 && d0 < 64 && d1 < 64 && d2 < 64 && d3 < 64
    requires b0 == d0 * 4 + d1 / 16 && b1 == d1 % 16 * 16 + d2 / 4 && b2 == d2 % 4 * 64 + d3
    ensures d0 == SixBits(b0, b1, b2, 0) && d1 == SixBits(b0, b1, b2, 1)
    ensures d2 == SixBits(b0, b1, b2, 2) && d3 == SixBits(b0, b1, b2, 3)
  {
    DivModUnique(b0, 4, d0, d1 / 16);
    DivModUnique(b1, 16, d1 % 16, d2 / 4);
    DivModUnique(b2, 64, d2 % 4, d3);
  }

  lemma SixBitsToOctets(b0: nat, b1: nat, b2: nat)
    requires b0 < 256 && b1 < 256 && b2 < 256
    ensures b0 == SixBits(b0, b1, b2, 0) * 4 + SixBits(b0, b1, b2, 1) / 16
    ensures b1 == SixBits(b0, b1, b2, 1) % 16 * 16 + SixBits(b0, b1, b2, 2) / 4
    ensures b2 == SixBits(b0, b1, b2, 2) % 4 * 64 + SixBits(b0, b1, b2, 3)
  {
    DivModUnique(SixBits(b0, b1, b2, 1), 16, b0 % 4, b1 / 16);
    DivModUnique(SixBits(b0, b1, b2, 2), 4, b1 % 16, b2 / 64);
  }

  /** The digits of a group and its bytes, all of them present: what both directions rest on. */
  lemma GroupLaw(c: string, last: bool, g: seq<Byte>)
    requires |c| == 4 && 1 <= |g| <= 3 && !BadDigit(c, last)
    ensures (forall k :: 0 <= k < 4 ==> GroupDigit(c, last, k) == Sextet(g, k))
      <==> (forall b :: 0 <= b < 3 ==> ByteOf(GroupValue(c, last), b) == OctetOrZero(g, b))
  {
    hide GroupDigit, ByteOf, SixBits;
    var d0, d1, d2, d3 := GroupDigit(c, last, 0), GroupDigit(c, last, 1),
      GroupDigit(c, last, 2), GroupDigit(c, last, 3);
    BytesOfDigits(d0, d1, d2, d3);
    Regrouped(OctetOrZero(g, 0), OctetOrZero(g, 1), OctetOrZero(g, 2), d0, d1, d2, d3);
  }

  lemma GroupAccepted(c: string, last: bool, g: seq<Byte>)
    requires |c| == 4 && 1 <= |g| <= 3
    requires GroupOutcome(c, last) == Ok(g)
    ensures c == EncodedGroup(g)
  {
    hide DigitValue, ByteOf, GroupValue, Sextet;
    var v := GroupValue(c, last);
    assert g == [ByteOf(v, 0), ByteOf(v, 1), ByteOf(v, 2)][..3 - Padding(c, last)];
    forall b | 0 <= b < 3 ensures ByteOf(v, b) == OctetOrZero(g, b) {
    }
    GroupLaw(c, last, g);
  }

  lemma EncodingAccepted(c: string, last: bool, g: seq<Byte>)
    requires |c| == 4 && 1 <= |g| <= 3 && (last || |g| == 3)
    requires c == EncodedGroup(g)
    ensures GroupOutcome(c, last) == Ok(g)
  {
    DigitsOfEncoding(c, last, g);
    GroupLaw(c, last, g);
    hide DigitValue, ByteOf, GroupValue, Sextet, GroupDigit, Alphabet;
    var v := GroupValue(c, last);
    assert 3 - Padding(c, last) == |g|;
    assert [ByteOf(v, 0), ByteOf(v, 1), ByteOf(v, 2)][..|g|] == g;
  }

  lemma DigitsOfEncoding(c: string, last: bool, g: seq<Byte>)
    requires |c| == 4 && 1 <= |g| <= 3 && (last || |g| == 3)
    requires c == EncodedGroup(g)
    ensures Padding(c, last) == 3 - |g| && !BadDigit(c, last)
    ensures forall k :: 0 <= k < 4 ==> GroupDigit(c, last, k) == Sextet(g, k)
  {
    forall k | 0 <= k < 4 ensures DigitValue(Alphabet(Sextet(g, k))) == Sextet(g, k) {
      DigitValueOfAlphabet(Sextet(g, k));
    }
    DigitValueOfAlphabet(0);
    AlphabetStart();
    hide DigitValue, Alphabet;
    assert |g| == 1 ==> Sextet(g, 2) == 0;
    assert |g| <= 2 ==> Sextet(g, 3) == 0;
  }

  lemma AlphabetStart()
    ensures Alphabet(0) == 'A'
  {
  }

  /** Every text the decoder accepts is the encoding of what it returned. */
  lemma {:induction false} AcceptedIsEncoding(s: string)
    requires |s| % 4 == 0 && Decoded(s).Ok?
    ensures s == Encoded(Decoded(s).bytes)
    decreases |s|
  {
    hide GroupOutcome, EncodedGroup;
    if s != "" {
      var c, t := s[..4], s[4..];
      var g := GroupOutcome(c, t == "").bytes;
      assert s == c + t;
      DecodedStep(c, t, g);
      GroupLength(c, t == "");
      GroupAccepted(c, t == "", g);
      AcceptedIsEncoding(t);
      EncodedStep(g, Decoded(t).bytes, t == "");
    }
  }

  lemma EncodedStep(g: seq<Byte>, rest: seq<Byte>, last: bool)
    requires 1 <= |g| <= 3 && (last || |g| == 3) && (last <==> Encoded(rest) == "")
    ensures Encoded(g + rest) == EncodedGroup(g) + Encoded(rest)
  {
    EncodedLength(rest);
    hide EncodedGroup;
    if last {
      assert g + rest == g;
    } else {
      assert (g + rest)[..3] == g && (g + rest)[3..] == rest;
    }
  }

  lemma GroupLength(c: string, last: bool)
    requires |c| == 4 && GroupOutcome(c, last).Ok?
    ensures 1 <= |GroupOutcome(c, last).bytes| <= 3 && (last || |GroupOutcome(c, last).bytes| == 3)
  {
  }

  /** The one or two equals signs that may end a text. */
  predicate PadsAt(s: string, k: nat)
    requires k < |s|
  {
    s[k] == '=' && (k == |s| - 1 || (k == |s| - 2 && s[|s| - 1] == '='))
  }

  predicate StrayAt(s: string, k: nat) {
    k < |s| && s[k] !in DIGITS && !PadsAt(s, k)
  }

  /**
    * -1 stands for a character that is neither a digit nor padding, and -2 for a text whose only fault is its last
    * bits.
    */
  lemma {:induction false} FailCodes(s: string)
    requires |s| % 4 == 0
    ensures Decoded(s) == Fail(-1) <==> exists k :: StrayAt(s, k)
    ensures Decoded(s).Fail? ==> Decoded(s).code in {-1, -2}
    decreases |s|
  {
    hide GroupOutcome, StrayAt, Decoded;
    if s == "" {
      NothingDecoded();
      NothingStray();
    } else {
      var c, t := s[..4], s[4..];
      assert s == c + t;
      GroupFails(c, t == "");
      StraySplits(s, c, t, t == "");
      if GroupOutcome(c, t == "").Ok? {
        DecodedStep(c, t, GroupOutcome(c, t == "").bytes);
        FailCodes(t);
      } else {
        DecodedFails(c, t);
        NothingStray();
      }
    }
  }

  lemma NothingStray()
    ensures forall k :: !StrayAt("", k)
  {
  }

  predicate StrayIn(c: string, last: bool, k: nat)
    requires |c| == 4
  {
    k < 4 && c[k] !in DIGITS && !(last && PadsAt(c, k))
  }

  lemma GroupFails(c: string, last: bool)
    requires |c| == 4
    ensures GroupOutcome(c, last) == Fail(-1) <==> exists k :: StrayIn(c, last, k)
    ensures GroupOutcome(c, last).Fail? && !last ==> GroupOutcome(c, last) == Fail(-1)
    ensures GroupOutcome(c, last).Fail? ==> GroupOutcome(c, last).code in {-1, -2}
  {
    hide DigitValue, GroupValue, ByteOf, DIGITS;
    DigitValueOfAlphabet(0);
    AlphabetStart();
    forall k | 0 <= k < 4 ensures GroupDigit(c, last, k) == -1 <==> StrayIn(c, last, k) {
      ValueOfDigit(c[k]);
    }
  }

  lemma StraySplits(s: string, c: string, t: string, last: bool)
    requires s == c + t && |c| == 4 && |t| % 4 == 0 && (last <==> t == "")
    ensures (exists k :: StrayAt(s, k)) <==> (exists k :: StrayIn(c, last, k)) || (exists k :: StrayAt(t, k))
  {
    hide DIGITS;
    forall k: nat
      ensures k < 4 ==> (StrayAt(s, k) <==> StrayIn(c, last, k))
      ensures 4 <= k ==> (StrayAt(s, k) <==> StrayAt(t, k - 4))
    {
      assert k < 4 ==> s[k] == c[k];
      assert 4 <= k < |s| ==> s[k] == t[k - 4];
    }
    hide StrayAt, StrayIn;
    forall k: nat | StrayAt(t, k) ensures StrayAt(s, k + 4) {
    }
    forall k: nat | StrayIn(c, last, k) ensures StrayAt(s, k) {
      StrayInRange(c, last, k);
    }
    forall k: nat | StrayAt(s, k)
      ensures (exists i :: StrayIn(c, last, i)) || (exists i :: StrayAt(t, i))
    {
      assert k < 4 ==> StrayIn(c, last, k);
      assert 4 <= k ==> StrayAt(t, k - 4);
    }
  }

  lemma StrayInRange(c: string, last: bool, k: nat)
    requires |c| == 4 && StrayIn(c, last, k)
    ensures k < 4
  {
  }

  /** An outcome with bytes already decoded in front. */
  function Prepend(done: seq<Byte>, r: Outcome): Outcome {
    if r.Fail? then r else Ok(done + r.bytes)
  }

  lemma DecodedStep(c: string, t: string, g: seq<Byte>)
    requires |c| == 4 && |t| % 4 == 0 && |c + t| % 4 == 0 && GroupOutcome(c, t == "") == Ok(g)
    ensures Decoded(c + t) == Prepend(g, Decoded(t))
  {
    hide GroupOutcome;
    assert (c + t)[..4] == c && (c + t)[4..] == t;
  }

  lemma DecodedFails(c: string, t: string)
    requires |c| == 4 && |t| % 4 == 0 && |c + t| % 4 == 0
    ensures GroupOutcome(c, t == "").Fail? ==> Decoded(c + t) == GroupOutcome(c, t == "")
  {
    hide GroupOutcome;
    assert (c + t)[..4] == c && (c + t)[4..] == t;
  }

  lemma NothingDecoded()
    ensures Decoded("") == Ok([])
  {
  }

  /** Decoding an encoding gives back the bytes. */
  lemma {:induction false} RoundTrip(x: seq<Byte>)
    ensures |Encoded(x)| % 4 == 0 && Decoded(Encoded(x)) == Ok(x)
    decreases |x|
  {
    hide GroupOutcome, EncodedGroup;
    if 0 < |x| <= 3 {
      EncodingAccepted(Encoded(x), true, x);
      DecodedStep(Encoded(x), "", x);
      assert Encoded(x) + "" == Encoded(x) && x + [] == x;
    } else if 3 < |x| {
      var g, rest := x[..3], x[3..];
      EncodedLength(rest);
      RoundTrip(rest);
      EncodingAccepted(EncodedGroup(g), false, g);
      DecodedStep(EncodedGroup(g), Encoded(rest), g);
      assert g + rest == x;
    }
  }

  /** The decoder accepts a text as `x` exactly when it is the encoding of `x`. */
  lemma DecodesIff(s: string, x: seq<Byte>)
    requires |s| % 4 == 0
    ensures Decoded(s) == Ok(x) <==> s == Encoded(x)
  {
    if Decoded(s).Ok? {
      AcceptedIsEncoding(s);
    }
    RoundTrip(x);
  }

  /** str_base64_decode. */
  method Decode(dst: array<Byte>, dstSize: nat, data: string) returns (r: int)
    requires dstSize <= dst.Length
    modifies dst
    ensures |data| % 4 != 0 ==> r == -3
    ensures |data| % 4 == 0 && |data| / 4 * 3 > dstSize ==> r == -2
    ensures |data| % 4 == 0 && |data| / 4 * 3 <= dstSize ==>
      match Decoded(data)
      case Ok(x) => |x| <= dstSize && r == |x| && dst[..|x|] == x
      case Fail(code) => r == code
    ensures forall k :: dstSize <= k < dst.Length ==> dst[k] == old(dst[k])
  {
    hide GroupOutcome, Decoded;
    if |data| % 4 != 0 {
      return -3;
    }
    if |data| / 4 * 3 > dstSize {
      return -2;
    }
    var o: nat := 0;
    NothingDecoded();
    assert Rest(data, 0) == data;
    for i := 0 to |data| / 4
      invariant o <= 3 * i
      invariant forall k :: dstSize <= k < dst.Length ==> dst[k] == old(dst[k])
      invariant Decoded(data) == Prepend(dst[..o], Decoded(Rest(data, i)))
    {
      ghost var done := dst[..o];
      DecodedTurn(data, i, done);
      var code;
      code, o := DecodeGroup(dst, o, data[4 * i..4 * i + 4], 4 * i == |data| - 4);
      if code != 0 {
        return code;
      }
      assert dst[..o] == done + dst[|done|..o];
    }
    assert Rest(data, |data| / 4) == "";
    r := o;
  }

  /** What is left of a text after `i` groups. */
  function Rest(data: string, i: nat): (t: string)
    requires |data| % 4 == 0 && i <= |data| / 4
    ensures |t| == |data| - 4 * i && |t| % 4 == 0
  {
    data[4 * i..]
  }

  lemma RestSplits(data: string, i: nat)
    requires |data| % 4 == 0 && i < |data| / 4
    ensures 4 * i + 4 <= |data| && Rest(data, i) == data[4 * i..4 * i + 4] + Rest(data, i + 1)
    ensures Rest(data, i + 1) == "" <==> 4 * i == |data| - 4
  {
  }

  /** One turn of the decoding loop: its group either decides the outcome or joins the bytes in front. */
  lemma DecodedTurn(data: string, i: nat, done: seq<Byte>)
    requires |data| % 4 == 0 && i < |data| / 4
    requires Decoded(data) == Prepend(done, Decoded(Rest(data, i)))
    ensures 4 * i + 4 <= |data|
    ensures var r := GroupOutcome(data[4 * i..4 * i + 4], 4 * i == |data| - 4);
            if r.Fail? then Decoded(data) == r
            else Decoded(data) == Prepend(done + r.bytes, Decoded(Rest(data, i + 1)))
  {
    hide GroupOutcome, Decoded, Rest;
    RestSplits(data, i);
    var c, t := data[4 * i..4 * i + 4], Rest(data, i + 1);
    DecodedFails(c, t);
    var r := GroupOutcome(c, t == "");
    if r.Ok? {
      DecodedStep(c, t, r.bytes);
      PrependTwice(done, r.bytes, Decoded(t));
    }
  }

  lemma PrependTwice(a: seq<Byte>, b: seq<Byte>, r: Outcome)
    ensures Prepend(a, Prepend(b, r)) == Prepend(a + b, r)
  {
  }

  /** One turn of the decoding loop: `code` is 0 or the error to return. */
  method DecodeGroup(dst: array<Byte>, at: nat, c: string, last: bool) returns (code: int, o: nat)
    requires |c| == 4 && at + 3 <= dst.Length
    modifies dst
    ensures forall k :: 0 <= k < dst.Length && !(at <= k < at + 3) ==> dst[k] == old(dst[k])
    ensures match GroupOutcome(c, last)
            case Ok(g) => code == 0 && o == at + |g| && |g| <= 3 && dst[at..o] == g
            case Fail(e) => code == e && e < 0
  {
    hide DigitValue, ByteOf, ShiftedByte, Assembled;
    var copy := c;
    var numOutputBytes := 3;
    if last {
      if copy[3] == '=' {
        copy := copy[3 := 'A'];
        numOutputBytes := 2;
        if copy[2] == '=' {
          copy := copy[2 := 'A'];
          numOutputBytes := 1;
        }
      }
    }
    var d0, d1, d2, d3 := DigitValue(copy[0]), DigitValue(copy[1]), DigitValue(copy[2]), DigitValue(copy[3]);
    assert d0 == GroupDigit(c, last, 0) && d1 == GroupDigit(c, last, 1);
    assert d2 == GroupDigit(c, last, 2) && d3 == GroupDigit(c, last, 3);
    o := at;
    if d0 == -1 || d1 == -1 || d2 == -1 || d3 == -1 {
      return -1, o;
    }
    AssembledIsSum(d0, d1, d2, d3);
    code, o := WriteBytes(dst, at, Assembled(d0, d1, d2, d3), numOutputBytes);
  }

  /** The last loop of a turn: `n` octets are written, and the others must be zero. */
  method WriteBytes(dst: array<Byte>, at: nat, value: nat, n: nat) returns (code: int, o: nat)
    requires at + 3 <= dst.Length && n <= 3
    modifies dst
    ensures forall k :: 0 <= k < dst.Length && !(at <= k < at + 3) ==> dst[k] == old(dst[k])
    ensures if exists b :: n <= b < 3 && ByteOf(value, b) != 0 then code == -2
            else code == 0 && o == at + n && dst[at..o] == [ByteOf(value, 0), ByteOf(value, 1), ByteOf(value, 2)][..n]
  {
    hide ByteOf, ShiftedByte;
    o := at;
    for b := 0 to 3
      invariant o == at + Min(b, n)
      invariant forall k :: 0 <= k < dst.Length && !(at <= k < at + 3) ==> dst[k] == old(dst[k])
      invariant forall k :: 0 <= k < Min(b, n) ==> dst[at + k] == ByteOf(value, k)
      invariant forall k :: n <= k < b ==> ByteOf(value, k) == 0
    {
      ShiftedByteIs(value, b);
      var byteValue: Byte := ShiftedByte(value, b);
      if b < n {
        dst[o] := byteValue;
        o := o + 1;
      } else if byteValue != 0 {
        return -2, o;
      }
    }
    code := 0;
  }
}
